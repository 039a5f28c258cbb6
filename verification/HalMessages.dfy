/**
  What AddDevice and RemoveDevice messages do to the network, and the check that is meant to
  keep an emulated TV from taking more devices than it has ports.
*/
module HalMessages {
  import opened Wrappers
  import opened LogicalAddress
  import opened PhysicalAddress
  import opened Trees
  import opened Network
  import opened MessageQueue
  import opened HalModel
  import opened EmulatedDevice
  import opened HalInvariants
  import opened HalFrames

  // ----- accepting and rejecting devices -----

  /**
    An AddDevice message puts the whole profile's map under the parent, as its first child,
    and changes no other record but for addresses; or it changes nothing at all, exactly when
    the parent is unknown, or is the emulated device, a TV, with as many children in its
    profile as it has ports. Every other parent takes the device.
  */
  lemma AddAllOrNothing(v: View, profile: Profile, parent: string)
    requires Mapped(v) && (Find(v.tree, parent).Some? ==> v.emulated.Some?)
    ensures var w, p := Step(v, AddOp(profile, parent)).0, Find(v.tree, parent);
            var turnedDown := p.None? || (v.emulated == p && At(v.tree, p.value).kind == TV
                                          && At(v.tree, p.value).numberChildren >= v.numPorts);
            && (w.tree == v.tree <==> turnedDown)
            && (turnedDown ==> w == v)
            && (!turnedDown ==>
                  && Has(Erased(v.tree), p.value)
                  && Erased(w.tree) == InsertUnder(Erased(v.tree), p.value, Build(profile)))
  {
    var p := Find(v.tree, parent);
    AddStepIs(v, profile, parent);
    if p.Some? && !Rejects(v, p.value) {
      AddContents(v, profile, p.value);
    }
  }

  lemma AddContents(v: View, profile: Profile, p: Pos)
    requires Alive(v) && Has(v.tree, p)
    ensures var t := Grown(v, profile, p).tree;
            && t != v.tree && Has(Erased(v.tree), p)
            && Erased(t) == InsertUnder(Erased(v.tree), p, Build(profile))
  {
    InsertErased(v.tree, p, Build(profile));
    BuildErased(profile.children);
    PassErased(InsertUnder(v.tree, p, Build(profile)), None, Emulated(v).name, v.pool);
    InsertGrows(Erased(v.tree), p, Build(profile));
  }

  /**
    An accepted device leaves every other device's record as it was: its logical address, if
    it had one, and everything but the physical address, which becomes the device's port path.
  */
  lemma AddKeepsDevices(v: View, profile: Profile, parent: string, q: Pos)
    requires Alive(v) && Find(v.tree, parent).Some? && Has(v.tree, q)
    requires var p := Find(v.tree, parent).value;
             !(v.emulated == Some(p) && At(v.tree, p).kind == TV && At(v.tree, p).numberChildren >= v.numPorts)
    ensures var w, r := Step(v, AddOp(profile, parent)).0, AfterInsert(Find(v.tree, parent).value, q);
            && Has(w.tree, r)
            && At(w.tree, r) == At(v.tree, q).(pa := AddressOf(PortPath(v.tree, q)), la := At(w.tree, r).la)
            && (At(v.tree, q).la != -1 ==> At(w.tree, r).la == At(v.tree, q).la)
            && w == v.(tree := w.tree, pool := w.pool, emulated := w.emulated, trace := w.trace)
  {
    var p, sub := Find(v.tree, parent).value, Build(profile);
    AddStepIs(v, profile, parent);
    InsertKeeps(v.tree, p, sub, q);
    InsertPaths(v.tree, p, sub, q);
    PassKeeps(InsertUnder(v.tree, p, sub), None, Emulated(v).name, v.pool, AfterInsert(p, q));
    PhysicalAddressIsPath(InsertUnder(v.tree, p, sub), Emulated(v).name, v.pool, AfterInsert(p, q));
  }

  lemma {:induction false} InsertGrows<T>(t: Tree<T>, p: Pos, sub: Tree<T>)
    requires Has(t, p) && sub.Node? && sub.rest.Nil?
    ensures |VisitOrder(InsertUnder(t, p, sub))| == |VisitOrder(t)| + |VisitOrder(sub)|
  {
    match p
    case Here =>
    case Down(q) => InsertGrows(t.kids, q, sub);
    case Across(q) => InsertGrows(t.rest, q, sub);
  }

  lemma {:induction false} DropShrinks<T>(t: Tree<T>, k: nat)
    requires k < Siblings(t)
    ensures |VisitOrder(t)| == |VisitOrder(DropSibling(t, k))| + |VisitOrder(Sibling(t, k))|
    ensures |VisitOrder(Sibling(t, k))| > 0
  {
    if k > 0 {
      DropShrinks(t.rest, k - 1);
    }
  }

  lemma RemoveStepIs(v: View, name: string)
    requires Mapped(v)
    ensures Step(v, Process(Message(StateType, RemoveDeviceText(name)))).0 == RemoveDevice(v, name)
  {
  }

  /**
    A RemoveDevice message changes the network exactly when a direct child of the root has
    the name, wherever else it occurs; then it takes the first such child's whole tree, and
    every other device stays as it was.
  */
  lemma RemoveIffDirectChild(v: View, name: string, q: Pos)
    requires Mapped(v) && Has(v.tree.kids, q)
    ensures var w, k := Step(v, Process(Message(StateType, RemoveDeviceText(name)))).0, FirstNamed(v.tree.kids, name);
            && (w.tree == v.tree <==> k.None?)
            && (k.Some? ==>
                  && |VisitOrder(v.tree)| == |VisitOrder(w.tree)| + |VisitOrder(Sibling(v.tree.kids, k.value))|
                  && (AfterDrop(k.value, q).Some? ==>
                        && Has(w.tree.kids, AfterDrop(k.value, q).value)
                        && At(w.tree.kids, AfterDrop(k.value, q).value) == At(v.tree.kids, q)))
  {
    var k := FirstNamed(v.tree.kids, name);
    RemoveStepIs(v, name);
    if k.Some? {
      SiblingIsFound(v.tree.kids, k.value);
      DropShrinks(v.tree.kids, k.value);
      if AfterDrop(k.value, q).Some? {
        DropKeeps(v.tree.kids, k.value, q);
      }
    }
  }

  lemma {:induction false} DropLeaves<T>(t: Tree<T>, k: nat, i: nat)
    requires k < Siblings(t) && i < Siblings(t) - 1
    ensures Siblings(DropSibling(t, k)) == Siblings(t) - 1
    ensures Sibling(DropSibling(t, k), i) == Sibling(t, if i < k then i else i + 1)
  {
    if k > 0 {
      DropCount(t.rest, k - 1);
      if i > 0 {
        DropLeaves(t.rest, k - 1, i - 1);
      }
    }
  }

  lemma {:induction false} DropCount<T>(t: Tree<T>, k: nat)
    requires k < Siblings(t)
    ensures Siblings(DropSibling(t, k)) == Siblings(t) - 1
  {
    if k > 0 {
      DropCount(t.rest, k - 1);
    }
  }

  /** The root's other child trees stay, in order, and so do the root, the pool, the callback and the trace. */
  lemma RemoveLeavesOthers(v: View, name: string)
    requires Mapped(v)
    ensures var w := Step(v, Process(Message(StateType, RemoveDeviceText(name)))).0;
            match FirstNamed(v.tree.kids, name)
            case None => w == v
            case Some(k) =>
              && w.tree.Node? && w.tree.val == v.tree.val && Siblings(w.tree.kids) == Siblings(v.tree.kids) - 1
              && (forall i: nat :: i < Siblings(w.tree.kids) ==>
                    Sibling(w.tree.kids, i) == Sibling(v.tree.kids, if i < k then i else i + 1))
              && w == v.(tree := w.tree, emulated := w.emulated, retired := w.retired)
  {
    RemoveStepIs(v, name);
    match FirstNamed(v.tree.kids, name)
    case None =>
    case Some(k) =>
      var w := RemoveDevice(v, name);
      SiblingIsFound(v.tree.kids, k);
      DropCount(v.tree.kids, k);
      forall i: nat | i < Siblings(w.tree.kids)
        ensures Sibling(w.tree.kids, i) == Sibling(v.tree.kids, if i < k then i else i + 1)
      {
        DropLeaves(v.tree.kids, k, i);
      }
  }

  /** Insertion keeps every port path. */
  lemma {:induction false} InsertPaths(t: Tree<Info>, p: Pos, sub: Tree<Info>, q: Pos)
    requires Has(t, p) && Has(t, q) && sub.Node?
    ensures var u, r := InsertUnder(t, p, sub), AfterInsert(p, q);
            Has(u, r) && Ports(u, r) == Ports(t, q) && PortPath(u, r) == PortPath(t, q)
  {
    InsertKeeps(t, p, sub, q);
    match (p, q)
    case (Down(a), Down(b)) => InsertPaths(t.kids, a, sub, b);
    case (Across(a), Across(b)) => InsertPaths(t.rest, a, sub, b);
    case (Here, _) =>
    case (Down(_), _) =>
    case (Across(_), _) =>
  }

  /**
    An accepted AddDevice gives the emulated device its port path as physical address, so a
    TV below the root keeps the 0 it was opened with exactly if no port on its path counts.
  */
  lemma EmulatedAddressAfterAdd(v: View, profile: Profile, parent: string)
    requires Alive(v) && Find(v.tree, parent).Some?
    requires var p := Find(v.tree, parent).value;
             !(v.emulated == Some(p) && At(v.tree, p).kind == TV && At(v.tree, p).numberChildren >= v.numPorts)
    ensures var w, path := Step(v, AddOp(profile, parent)).0, PortPath(v.tree, v.emulated.value);
            Alive(w) && Emulated(w).pa == AddressOf(path) && (Emulated(w).pa == 0 <==> Significant(path) == [])
  {
    var path := PortPath(v.tree, v.emulated.value);
    AddStepIs(v, profile, parent);
    AddKeepsDevices(v, profile, parent, v.emulated.value);
    assert AddressOf([]) == 0;
    SameAddress(path, []);
    assert Significant([]) == [];
    assert Prefix(Significant(path)) == [] <==> Significant(path) == [];
  }

  /** A TV emulated below another. */
  const BEDROOM_CONFIG := Config("Bedroom TV", 1,
    Profile("Living room TV", TV, 0, [Profile("Bedroom TV", TV, 1, [])]))

  lemma OpenedBedroom() returns (v: View)
    ensures Opened(BEDROOM_CONFIG) == Some(v) && Alive(v) && v.emulated == Some(Down(Here))
    ensures Emulated(v).kind == TV && Emulated(v).pa == 0 && Emulated(v).port == 1
    ensures v.tree.val.name == "Living room TV"
  {
    var built := Build(BEDROOM_CONFIG.profile);
    assert built.kids == Node(Loaded(BEDROOM_CONFIG.profile.children[0]), Nil, Nil);
    assert built.val.name[0] != BEDROOM_CONFIG.emulated[0];
    assert Find(built.kids, BEDROOM_CONFIG.emulated) == Some(Here);
    v := Opened(BEDROOM_CONFIG).value;
    PassKeeps(built, None, BEDROOM_CONFIG.emulated, FRESH_POOL, Down(Here));
  }

  /** Opening it takes slot 0 for the emulated TV and then forgets that. */
  lemma BedroomSlotIsLost()
    ensures Opened(BEDROOM_CONFIG).Some? && !Conserved(Opened(BEDROOM_CONFIG).value)
  {
    var v := OpenedBedroom();
    OpenConservesIff(BEDROOM_CONFIG);
  }

  /** Any device added to its parent moves the emulated TV from physical address 0. */
  lemma BedroomAddressMoves(profile: Profile)
    ensures Opened(BEDROOM_CONFIG).Some? && Emulated(Opened(BEDROOM_CONFIG).value).pa == 0
    ensures var w := Step(Opened(BEDROOM_CONFIG).value, AddOp(profile, "Living room TV")).0;
            Alive(w) && Emulated(w).pa != 0
  {
    var v := OpenedBedroom();
    RootNameFindsRoot(v.tree);
    EmulatedAddressAfterAdd(v, profile, "Living room TV");
    assert PortPath(v.tree, Down(Here)) == [1];
    assert Significant([1]) == [1] by {
      assert [1][..0] == [];
    }
  }

  // ----- the port check -----

  /** `n` times the same AddDevice message. */
  function Repeat(profile: Profile, parent: string, n: nat): (ops: seq<Op>) {
    if n == 0 then [] else Repeat(profile, parent, n - 1) + [Process(Message(StateType, AddDeviceText(profile, parent)))]
  }

  lemma RootNameFindsRoot(t: Tree<Info>)
    requires t.Node?
    ensures Find(t, t.val.name) == Some(Here)
  {
  }

  /**
    The check compares the profile's child count, which insertion does not change, so it
    accepts an emulated TV's devices without limit if it accepts one, and never otherwise.
  */
  lemma {:induction false} PortCheckNeverFills(v: View, profile: Profile, n: nat)
    requires Alive(v) && v.emulated == Some(Here) && v.tree.val.kind == TV
    ensures var ops := Repeat(profile, v.tree.val.name, n);
            && Safe(v, ops)
            && Siblings(Run(v, ops).tree.kids) ==
               Siblings(v.tree.kids) + if v.tree.val.numberChildren < v.numPorts then n else 0
  {
    var name := v.tree.val.name;
    RootRunsAreSafe(v, Repeat(profile, name, n));
    if n > 0 {
      var before := Repeat(profile, name, n - 1);
      PortCheckNeverFills(v, profile, n - 1);
      RootRunsAreSafe(v, before);
      SafeLast(v, before, Process(Message(StateType, AddDeviceText(profile, name))));
      OneMoreChild(Run(v, before), profile);
    }
  }

  lemma OneMoreChild(v: View, profile: Profile)
    requires Alive(v) && v.emulated == Some(Here) && v.tree.val.kind == TV
    ensures var w := AddDevice(v, profile, v.tree.val.name);
            && w.tree.Node? && w.tree.val.name == v.tree.val.name
            && Siblings(w.tree.kids) == Siblings(v.tree.kids) + Bit(v.tree.val.numberChildren < v.numPorts)
  {
    RootNameFindsRoot(v.tree);
    if !Rejects(v, Here) {
      var sub := Build(profile);
      var kids := sub.(rest := v.tree.kids);
      assert InsertUnder(v.tree, Here, Build(profile)) == v.tree.(kids := kids);
      PassSiblings(kids, Some(0), Emulated(v).name, v.pool);
      PassFromRoot(v.tree.(kids := kids), Emulated(v).name, v.pool);
      assert Siblings(kids) == 1 + Siblings(v.tree.kids);
    }
  }

  lemma {:induction false} PassSiblings(t: Tree<Info>, parent: Option<Word>, emulated: string, pool: Pool)
    ensures Siblings(Pass(t, parent, emulated, pool).tree) == Siblings(t)
  {
    if t.Node? {
      PassSiblings(t.rest, parent, emulated, PoolAfter(parent, t.val, pool));
    }
  }
}
