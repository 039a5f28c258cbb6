/** What every run of the HAL keeps: the addresses in the network, and the emulated TV at the root. */
module HalInvariants {
  import opened Wrappers
  import opened LogicalAddress
  import opened PhysicalAddress
  import opened Trees
  import opened Network
  import opened MessageQueue
  import opened HalModel
  import opened EmulatedDevice

  // ----- what every run keeps -----

  /** The TV whose address the application manages is the root; any other emulated device is not a TV. */
  predicate ManagedAtRoot(v: View)
    requires Mapped(v)
  {
    v.emulated.Some? ==> v.emulated == Some(Here) || Emulated(v).kind != TV
  }

  /** Below 15, a slot is allocated for exactly one device: one of the network's, or one that was removed. */
  ghost predicate Conserved(v: View)
    requires v.tree.Node?
  {
    forall a :: 0 <= a < UNREGISTERED ==> Holders(v.tree.kids, a) + Bit(a in v.retired) == Bit(v.pool[a])
  }

  /** The map is as the last pass left it; the name that pass compared with is gone with the emulated device. */
  ghost predicate AsPassed(v: View)
    requires Mapped(v)
  {
    if v.emulated.Some? then Settled(v.tree, None, Emulated(v).name)
    else exists name :: Settled(v.tree, None, name)
  }

  ghost predicate NetInv(v: View) {
    Mapped(v) && ManagedAtRoot(v) && AsPassed(v) && Conserved(v) && InClass(v.tree.kids)
  }

  lemma PassedName(v: View) returns (name: string)
    requires NetInv(v)
    ensures Settled(v.tree, None, name) && (v.emulated.Some? ==> name == Emulated(v).name)
  {
    if v.emulated.Some? {
      name := Emulated(v).name;
    } else {
      name :| Settled(v.tree, None, name);
    }
  }

  lemma {:induction false} PutHolders(t: Tree<Info>, p: Pos, d: Info, a: int)
    requires Has(t, p)
    ensures Holders(Put(t, p, d), a) + Bit(At(t, p).la == a) == Holders(t, a) + Bit(d.la == a)
  {
    match p
    case Here =>
    case Down(q) => PutHolders(t.kids, q, d, a);
    case Across(q) => PutHolders(t.rest, q, d, a);
  }

  /** The pass over a freshly built map allocates exactly the slots its devices then hold. */
  lemma OpenPassConserves(c: Config, a: int)
    requires 0 <= a < UNREGISTERED
    ensures var r := Pass(Build(c.profile), None, c.emulated, FRESH_POOL);
            Holders(r.tree.kids, a) == Bit(r.pool[a]) && InClass(r.tree.kids)
  {
    var kids := BuildChildren(c.profile.children);
    BuildChildrenHoldNothing(c.profile.children, a);
    PassConserves(kids, 0, c.emulated, FRESH_POOL, a);
    PassInClass(kids, 0, c.emulated, FRESH_POOL);
  }

  lemma OpenEstablishesInv(c: Config)
    requires Opened(c).Some? && ManagedAtRoot(Opened(c).value)
    ensures NetInv(Opened(c).value)
  {
    var v := Opened(c).value;
    var p := v.emulated.value;
    var r := FirstPass(c, p);
    PassKeeps(Build(c.profile), None, c.emulated, FRESH_POOL, p);
    PassSettles(Build(c.profile), None, c.emulated, FRESH_POOL);
    assert v.tree.kids == r.tree.kids && v.pool == r.pool && v.retired == {};
    assert Emulated(v).name == c.emulated;
    assert Conserved(v) && InClass(v.tree.kids) by {
      OpenPassConserves(c, 0);
      forall a | 0 <= a < UNREGISTERED
        ensures Holders(v.tree.kids, a) == Bit(v.pool[a])
      {
        OpenPassConserves(c, a);
      }
    }
  }

  /**
    Without that condition: opening conserves slots exactly unless the emulated device is a
    TV below the root with fewer than two TVs before it in visit order. Such a TV is given
    slot 0 or 14, which opening then overwrites.
  */
  lemma OpenConservesIff(c: Config)
    requires Opened(c).Some?
    ensures var v, built := Opened(c).value, Build(c.profile);
            var p := v.emulated.value;
            && Has(built, p)
            && (Conserved(v) <==> p == Here || At(built, p).kind != TV || 2 <= Pending(VisitedBefore(built.kids, p.below), TV))
  {
    var v, built := Opened(c).value, Build(c.profile);
    var p := v.emulated.value;
    PassKeeps(built, None, c.emulated, FRESH_POOL, p);
    if p.Down? && At(built, p).kind == TV {
      var given := OverwrittenAddress(c);
      if given != UNREGISTERED {
        var held: int := given;
        assert Holders(v.tree.kids, held) + Bit(held in v.retired) != Bit(v.pool[held]);
      }
    } else {
      var r := FirstPass(c, p);
      assert v.tree.kids == r.tree.kids;
      forall a | 0 <= a < UNREGISTERED
        ensures Holders(r.tree.kids, a) == Bit(r.pool[a])
      {
        OpenPassConserves(c, a);
      }
    }
  }

  /** The address the pass gives to a TV below the root that opening goes on to overwrite. */
  lemma OverwrittenAddress(c: Config) returns (given: Slot)
    requires Opened(c).Some? && Opened(c).value.emulated.value.Down?
    requires Emulated(Opened(c).value).kind == TV
    ensures var v, kids := Opened(c).value, Build(c.profile).kids;
            && Has(kids, v.emulated.value.below)
            && given == Nth([0, 14], Pending(VisitedBefore(kids, v.emulated.value.below), TV))
            && forall a :: 0 <= a < UNREGISTERED ==> Holders(v.tree.kids, a) + Bit(given == a) == Bit(v.pool[a])
  {
    var v, built := Opened(c).value, Build(c.profile);
    var q := v.emulated.value.below;
    var r := FirstPass(c, Down(q));
    PassKeeps(built, None, c.emulated, FRESH_POOL, Down(q));
    BuiltUnknown(c.profile.children, q);
    AddressAtRank(built.kids, 0, c.emulated, q);
    PassFromRoot(built, c.emulated, FRESH_POOL);
    var d := At(r.tree.kids, q);
    given := d.la;
    forall a | 0 <= a < UNREGISTERED
      ensures Holders(v.tree.kids, a) + Bit(d.la == a) == Bit(v.pool[a])
    {
      OpenPassConserves(c, a);
      PutHolders(r.tree.kids, q, d.(pa := 0, la := BROADCAST), a);
    }
  }

  /** Nothing has a logical address before the first pass. */
  lemma {:induction false} BuiltUnknown(ps: seq<Profile>, q: Pos)
    requires Has(BuildChildren(ps), q)
    ensures At(BuildChildren(ps), q).la == UNKNOWN
  {
    var last := |ps| - 1;
    match q
    case Here =>
    case Down(a) => BuiltUnknown(ps[last].children, a);
    case Across(a) => BuiltUnknown(ps[..last], a);
  }

  ghost predicate ConservedAfter(v: View, ops: seq<Op>) {
    Safe(v, ops) ==> Conserved(Run(v, ops))
  }

  /**
    Slots are conserved on every run from opening exactly if the emulated device is the root
    or not a TV.
  */
  lemma AlwaysConservedIff(c: Config)
    requires Opened(c).Some?
    ensures var v := Opened(c).value;
            ManagedAtRoot(v) <==> forall ops :: ConservedAfter(v, ops)
  {
    var v := Opened(c).value;
    if ManagedAtRoot(v) {
      OpenEstablishesInv(c);
      forall ops
        ensures ConservedAfter(v, ops)
      {
        RunKeepsInv(v, ops);
      }
    } else {
      var add := [Add(0)];
      var w := Step(v, Add(0)).0;
      assert Safe(w, add[1..]) && Safe(v, []) && Safe(v, add) && Run(v, []) == v && Run(v, add) == w;
      PutHolders(v.tree.kids, v.emulated.value.below, Emulated(v).(la := 0), 0);
      AsEmulatedAddress(c);
      assert Holders(w.tree.kids, 0) == Holders(v.tree.kids, 0) + 1;
      assert !ConservedAfter(v, []) || !ConservedAfter(v, add);
    }
  }

  /** An emulated TV is opened without an address of its own. */
  lemma AsEmulatedAddress(c: Config)
    requires Opened(c).Some? && Emulated(Opened(c).value).kind == TV
    ensures Emulated(Opened(c).value).la == BROADCAST && Emulated(Opened(c).value).pa == 0
  {
    var p := Opened(c).value.emulated.value;
    var t := FirstPass(c, p).tree;
    PutHas(t, p, At(t, p).(pa := 0, la := BROADCAST));
  }

  /** After a pass, every device below the root has a logical address. */
  lemma {:induction false} SettledAssigned(t: Tree<Info>, parent: Word, emulated: string, p: Pos)
    requires Settled(t, Some(parent), emulated) && Has(t, p)
    ensures At(t, p).la != UNKNOWN
  {
    match p
    case Here =>
    case Down(q) => SettledAssigned(t.kids, t.val.pa, emulated, q);
    case Across(q) => SettledAssigned(t.rest, parent, emulated, q);
  }

  /** What adding a device does to an invariant network: the new subtree is allocated, nothing else changes. */
  lemma AddIsInsert(v: View, profile: Profile, p: Pos)
    requires NetInv(v) && Alive(v) && Has(v.tree, p)
    ensures var added := Pass(Build(profile), Some(At(v.tree, p).pa), Emulated(v).name, v.pool);
            Grown(v, profile, p) == Allocation(InsertUnder(v.tree, p, added.tree), added.pool)
            && added.tree.Node? && added.tree.rest.Nil?
  {
    InsertStable(v.tree, None, Emulated(v).name, v.pool, p, Build(profile));
  }

  lemma InsertBelowRoot(t: Tree<Info>, p: Pos, sub: Tree<Info>, a: int)
    requires t.Node? && t.rest.Nil? && Has(t, p) && sub.Node? && sub.rest.Nil?
    requires InClass(t.kids) && InClass(sub)
    ensures var kids := InsertUnder(t, p, sub).kids;
            Holders(kids, a) == Holders(t.kids, a) + Holders(sub, a) && InClass(kids)
  {
    match p
    case Here =>
    case Down(q) =>
      InsertAddsHolders(t.kids, q, sub, a);
      InsertInClass(t.kids, q, sub);
    case Across(q) => assert false;
  }

  lemma AddKeepsInv(v: View, profile: Profile, p: Pos)
    requires NetInv(v) && Alive(v) && Has(v.tree, p)
    ensures var g := Grown(v, profile, p);
            NetInv(v.(tree := g.tree, pool := g.pool, emulated := Some(AfterInsert(p, v.emulated.value))))
  {
    var g := Grown(v, profile, p);
    var pa, name := At(v.tree, p).pa, Emulated(v).name;
    var sub := Build(profile);
    var added := Pass(sub, Some(pa), name, v.pool);
    GrownKeeps(v, profile, p);
    AddIsInsert(v, profile, p);
    PassSettles(InsertUnder(v.tree, p, sub), None, name, v.pool);
    BuildHoldsNothing(profile, 0);
    PassInClass(sub, pa, name, v.pool);
    InsertBelowRoot(v.tree, p, added.tree, 0);
    forall a | 0 <= a < UNREGISTERED
      ensures Holders(g.tree.kids, a) + Bit(a in v.retired) == Bit(g.pool[a])
    {
      BuildHoldsNothing(profile, a);
      PassConserves(sub, pa, name, v.pool, a);
      InsertBelowRoot(v.tree, p, added.tree, a);
    }
  }

  lemma RemoveKeepsInv(v: View, name: string)
    requires NetInv(v)
    ensures NetInv(RemoveDevice(v, name))
  {
    var w := RemoveDevice(v, name);
    var k := FirstNamed(v.tree.kids, name);
    if Find(v.tree, name).Some? && k.Some? {
      var cut := Sibling(v.tree.kids, k.value);
      var passed := PassedName(v);
      assert Mapped(w) by {
        assert Defined(v, Process(Message(StateType, RemoveDeviceText(name))));
        StepMapped(v, Process(Message(StateType, RemoveDeviceText(name))));
      }
      DropSettled(v.tree.kids, Some(v.tree.val.pa), passed, k.value);
      assert Settled(w.tree, None, passed);
      DropInClass(v.tree.kids, k.value);
      if w.emulated.Some? && v.emulated.value.Down? {
        DropKeeps(v.tree.kids, k.value, v.emulated.value.below);
      }
      forall a | 0 <= a < UNREGISTERED
        ensures Holders(w.tree.kids, a) + Bit(a in w.retired) == Bit(w.pool[a])
      {
        DropRemovesHolders(v.tree.kids, k.value, a);
        assert a in w.retired <==> a in v.retired || Holders(cut, a) > 0;
        assert Holders(v.tree.kids, a) + Bit(a in v.retired) == Bit(v.pool[a]);
      }
    }
  }

  lemma StepKeepsInv(v: View, op: Op)
    requires NetInv(v) && Defined(v, op)
    ensures NetInv(Step(v, op).0)
  {
    match op
    case Add(_) =>
    case Remove(_) =>
    case SetCallback(_) =>
    case Process(m) =>
      match (m.kind, m.payload) {
        case (StateType, AddDeviceText(profile, parent)) =>
          var p := Find(v.tree, parent);
          if p.Some? && !Rejects(v, p.value) {
            AddKeepsInv(v, profile, p.value);
          }
        case (StateType, RemoveDeviceText(name)) => RemoveKeepsInv(v, name);
        case _ =>
      }
  }

  /** Over every run of API calls and messages that has a meaning, the network invariant holds. */
  lemma {:induction false} RunKeepsInv(v: View, ops: seq<Op>)
    requires NetInv(v)
    ensures Endures(v, ops) ==> Safe(v, ops)
    ensures Safe(v, ops) ==> NetInv(Run(v, ops))
    decreases ops
  {
    EnduringIsSafe(v, ops);
    if ops != [] && Safe(v, ops) {
      StepKeepsInv(v, ops[0]);
      RunKeepsInv(Step(v, ops[0]).0, ops[1..]);
    }
  }

  /**
    In an invariant network, a device below the root has a logical address of its type's
    class or 15; below 15 its slot is allocated and no other device below the root has it.
  */
  lemma AddressesAreUnique(v: View, p: Pos, q: Pos)
    requires NetInv(v) && Has(v.tree.kids, p) && Has(v.tree.kids, q)
    ensures var d := At(v.tree.kids, p);
            && (d.la == UNREGISTERED || d.la in Candidates(d.kind))
            && 0 <= d.la
            && (d.la < UNREGISTERED ==> v.pool[d.la] && d.la !in v.retired)
            && (d.la < UNREGISTERED && At(v.tree.kids, q).la == d.la ==> p == q)
  {
    var d := At(v.tree.kids, p);
    var name := PassedName(v);
    SettledAssigned(v.tree.kids, v.tree.val.pa, name, p);
    InClassAt(v.tree.kids, p);
    HolderCounted(v.tree.kids, p);
    if d.la < UNREGISTERED {
      var a: int := d.la;
      assert Holders(v.tree.kids, a) + Bit(a in v.retired) == Bit(v.pool[a]);
      if At(v.tree.kids, q).la == d.la {
        SoleHolder(v.tree.kids, p, q);
      }
    }
  }

  /** If no TV is below the root, the root's own address clashes with no device's either. */
  lemma RootAddressIsUnique(v: View, q: Pos)
    requires NetInv(v) && v.tree.val.la in {UNKNOWN, 0, UNREGISTERED}
    requires Has(v.tree.kids, q) && At(v.tree.kids, q).kind != TV
    ensures v.tree.val.la == At(v.tree.kids, q).la ==> v.tree.val.la == UNREGISTERED
  {
    AddressesAreUnique(v, q, q);
  }

  /**
    The allocated slots below 15 are the live addresses and the retired ones, with nothing
    retired on a run that removes no device.
  */
  lemma AllocatedSlots(v: View, ops: seq<Op>, a: int)
    requires NetInv(v) && 0 <= a < UNREGISTERED
    ensures Endures(v, ops) ==> Safe(v, ops)
    ensures Safe(v, ops) ==>
              var w := Run(v, ops);
              && (w.pool[a] <==> a in Held(w.tree.kids) || a in w.retired)
              && v.retired <= w.retired
              && ((forall i :: 0 <= i < |ops| ==> !(ops[i].Process? && ops[i].m.payload.RemoveDeviceText?))
                  ==> w.retired == v.retired)
  {
    RunKeepsInv(v, ops);
    if Safe(v, ops) {
      RetiredGrows(v, ops);
      var w := Run(v, ops);
      assert Holders(w.tree.kids, a) + Bit(a in w.retired) == Bit(w.pool[a]);
    }
  }

  lemma {:induction false} RetiredGrows(v: View, ops: seq<Op>)
    requires Safe(v, ops)
    ensures v.retired <= Run(v, ops).retired
    ensures (forall i :: 0 <= i < |ops| ==> !(ops[i].Process? && ops[i].m.payload.RemoveDeviceText?))
              ==> Run(v, ops).retired == v.retired
    decreases ops
  {
    if ops != [] {
      var rest := ops[1..];
      RetiredGrows(Step(v, ops[0]).0, rest);
      if forall i :: 0 <= i < |ops| ==> !(ops[i].Process? && ops[i].m.payload.RemoveDeviceText?) {
        assert forall i :: 0 <= i < |rest| ==> rest[i] == ops[i + 1];
      }
    }
  }

  /** A removed device's address is never given to a device again. */
  lemma RetiredIsLost(v: View, ops: seq<Op>, p: Pos)
    requires NetInv(v) && Safe(v, ops) && Has(Run(v, ops).tree.kids, p)
    ensures At(Run(v, ops).tree.kids, p).la in v.retired ==> At(Run(v, ops).tree.kids, p).la == UNREGISTERED
  {
    RunKeepsInv(v, ops);
    RetiredGrows(v, ops);
    AddressesAreUnique(Run(v, ops), p, p);
  }

  /** In an invariant network every physical address is a port path. */
  lemma AddressIsPath(v: View, p: Pos)
    requires NetInv(v) && Has(v.tree, p)
    ensures At(v.tree, p).pa == AddressOf(PortPath(v.tree, p))
  {
    var name := PassedName(v);
    SettledIsFixed(v.tree, None, name, v.pool);
    PhysicalAddressIsPath(v.tree, name, v.pool, p);
  }

  // ----- the emulated TV at the root -----

  ghost predicate RootTv(v: View) {
    && Alive(v) && v.emulated == Some(Here) && v.tree.val.kind == TV
    && v.tree.val.pa == 0 && v.tree.val.la in {0, BROADCAST}
  }

  /** Whether the latest successful add or remove was an add, given how it stood before. */
  function LastWasAdd(v: View, ops: seq<Op>, before: bool): (added: bool)
    requires Safe(v, ops)
    decreases ops
  {
    if ops == [] then before
    else
      var (w, status) := Step(v, ops[0]);
      var now :=
        if status == Success && ops[0].Add? then true
        else if status == Success && ops[0].Remove? then false
        else before;
      LastWasAdd(w, ops[1..], now)
  }

  lemma StepKeepsRootTv(v: View, op: Op)
    requires RootTv(v)
    ensures RootTv(Step(v, op).0)
    ensures Step(v, op).0.tree.val.la == v.tree.val.la || op.Add? || op.Remove?
  {
    StepKeepsRoot(v, op);
  }

  /**
    Over every run, the TV's logical address is 0 or 15 and its physical address 0, and a
    transmission succeeds exactly when the latest successful add or remove was an add.
  */
  lemma {:induction false} TransmitAfterAdd(v: View, ops: seq<Op>, added: bool)
    requires RootTv(v) && (v.tree.val.la == 0 <==> added)
    ensures Safe(v, ops) && RootTv(Run(v, ops))
    ensures Tx(Run(v, ops)) == Success <==> LastWasAdd(v, ops, added)
    decreases ops
  {
    if ops != [] {
      var (w, status) := Step(v, ops[0]);
      StepKeepsRootTv(v, ops[0]);
      var now :=
        if status == Success && ops[0].Add? then true
        else if status == Success && ops[0].Remove? then false
        else added;
      TransmitAfterAdd(w, ops[1..], now);
    }
  }

  /** Opening with a TV at the root that is the emulated device; no address was added yet. */
  lemma OpenRootTv(c: Config)
    requires Opened(c).Some? && Opened(c).value.emulated == Some(Here) && c.profile.kind == TV
    ensures RootTv(Opened(c).value) && Tx(Opened(c).value) == SentFailed
  {
  }
}
