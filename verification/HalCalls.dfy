/**
  What the application sees of opening, of its address calls and of its transmissions, for
  any emulated device.
*/
module HalCalls {
  import opened Wrappers
  import opened LogicalAddress
  import opened PhysicalAddress
  import opened Trees
  import opened Network
  import opened MessageQueue
  import opened HalModel
  import opened EmulatedDevice
  import opened HalInvariants
  import opened HalFrames

  // ----- opening -----

  /**
    Opening succeeds exactly if the profile has a device of the emulated device's name. It
    emulates the first such device, calls nobody, and leaves the root at physical address 0,
    without a logical address unless the root is emulated, which then has 15.
  */
  lemma OpenedIs(c: Config)
    ensures Opened(c).Some? <==> exists i :: 0 <= i < |Preorder(Build(c.profile))| && Preorder(Build(c.profile))[i].name == c.emulated
    ensures Opened(c).Some? ==>
              var v := Opened(c).value;
              && Alive(v) && v.emulated == Find(Build(c.profile), c.emulated)
              && v.numPorts == c.numPorts && !v.callback && v.trace == [] && v.retired == {}
              && Erased(v.tree) == Build(c.profile)
              && v.tree.val.pa == 0 && v.tree.val.la == (if v.emulated == Some(Here) then 15 else -1)
  {
    FindIsFirst(Build(c.profile), c.emulated);
    if Opened(c).Some? {
      var p := Opened(c).value.emulated.value;
      var t := FirstPass(c, p).tree;
      PassFromRoot(Build(c.profile), c.emulated, FRESH_POOL);
      PassErased(Build(c.profile), None, c.emulated, FRESH_POOL);
      BuildErased(c.profile.children);
      PutErased(t, p, At(t, p).(pa := 0, la := BROADCAST));
    }
  }

  lemma {:induction false} PutErased(t: Tree<Info>, p: Pos, d: Info)
    requires Has(t, p) && d == At(t, p).(pa := d.pa, la := d.la)
    ensures Erased(Put(t, p, d)) == Erased(t)
  {
    match p
    case Here =>
    case Down(q) => PutErased(t.kids, q, d);
    case Across(q) => PutErased(t.rest, q, d);
  }

  /** A root that is not emulated stays without a logical address, and at physical address 0, on every run. */
  lemma {:induction false} OtherRootStays(v: View, ops: seq<Op>)
    requires Mapped(v) && v.emulated != Some(Here) && (v.emulated.Some? ==> v.tree.val.name != Emulated(v).name)
    requires v.tree.val.la == -1 && v.tree.val.pa == 0 && Safe(v, ops)
    ensures Run(v, ops).tree.val == v.tree.val && Run(v, ops).emulated != Some(Here)
    decreases ops
  {
    if ops != [] {
      OtherRootStep(v, ops[0]);
      OtherRootStays(Step(v, ops[0]).0, ops[1..]);
    }
  }

  lemma OtherRootStep(v: View, op: Op)
    requires Mapped(v) && v.emulated != Some(Here) && (v.emulated.Some? ==> v.tree.val.name != Emulated(v).name)
    requires v.tree.val.la == -1 && v.tree.val.pa == 0 && Defined(v, op)
    ensures var w := Step(v, op).0;
            && w.tree.val == v.tree.val && w.emulated != Some(Here)
            && (w.emulated.Some? ==> w.tree.val.name != Emulated(w).name)
  {
    EmulatedStep(v, op);
    if op.Process? && op.m.kind == StateType && op.m.payload.AddDeviceText? {
      var p := Find(v.tree, op.m.payload.parent);
      if p.Some? && !Rejects(v, p.value) {
        PassFromRoot(InsertUnder(v.tree, p.value, Build(op.m.payload.profile)), Emulated(v).name, v.pool);
      }
    }
  }

  /** In particular from opening, if the emulated device is not the root. */
  lemma UnemulatedRoot(c: Config, ops: seq<Op>)
    requires Opened(c).Some? && Find(Build(c.profile), c.emulated) != Some(Here) && Safe(Opened(c).value, ops)
    ensures var root := Run(Opened(c).value, ops).tree.val;
            root.la == -1 && root.pa == 0 && root.name == c.profile.name
  {
    var v := Opened(c).value;
    OpenedIs(c);
    PassKeeps(Build(c.profile), None, c.emulated, FRESH_POOL, v.emulated.value);
    assert Erased(v.tree).val.name == v.tree.val.name;
    OtherRootStays(v, ops);
  }

  // ----- address calls -----

  /**
    Adding succeeds only for the address 0 of an emulated TV, whose logical address it sets;
    everything else stays as it was.
  */
  lemma AddingAddress(v: View, address: int, q: Pos)
    requires Alive(v)
    ensures var (w, status) := Step(v, Add(address));
            && status == (if Emulated(v).kind == TV && address == 0 then Success else InvalidArgument)
            && (status == InvalidArgument ==> w == v)
            && (status == Success ==>
                  && w == v.(tree := w.tree) && Has(w.tree, q) == Has(v.tree, q)
                  && (Has(v.tree, q) ==> At(w.tree, q) == if v.emulated == Some(q) then At(v.tree, q).(la := 0) else At(v.tree, q)))
  {
    PutPaths(v.tree, v.emulated.value, Emulated(v).(la := 0), q);
  }

  /** Removing likewise sets 15, and is refused if it is 15 already. */
  lemma RemovingAddress(v: View, address: int, q: Pos)
    requires Alive(v)
    ensures var (w, status) := Step(v, Remove(address));
            && status == (if Emulated(v).kind != TV || address != 0 then InvalidArgument
                          else if Emulated(v).la == 15 then AlreadyRemoved
                          else Success)
            && (status != Success ==> w == v)
            && (status == Success ==>
                  && w == v.(tree := w.tree) && Has(w.tree, q) == Has(v.tree, q)
                  && (Has(v.tree, q) ==> At(w.tree, q) == if v.emulated == Some(q) then At(v.tree, q).(la := 15) else At(v.tree, q)))
  {
    PutPaths(v.tree, v.emulated.value, Emulated(v).(la := 15), q);
  }

  lemma SettingCallback(v: View, on: bool)
    requires Mapped(v)
    ensures Step(v, SetCallback(on)) == (v.(callback := on), Success)
  {
  }

  // ----- transmitting -----

  /** A step leaves the emulated device what it is, and its logical address to the address calls. */
  lemma EmulatedStep(v: View, op: Op)
    requires Mapped(v) && Defined(v, op)
    ensures var w := Step(v, op).0;
            w.emulated.Some? ==>
              && v.emulated.Some? && Emulated(w).kind == Emulated(v).kind && Emulated(w).name == Emulated(v).name
              && (v.emulated == Some(Here) <==> w.emulated == Some(Here))
              && (Emulated(v).la != UNKNOWN && (op.Process? || op.SetCallback?) ==> Emulated(w).la == Emulated(v).la)
  {
    match op
    case Add(_) => PutHas(v.tree, v.emulated.value, Emulated(v).(la := 0));
    case Remove(_) => PutHas(v.tree, v.emulated.value, Emulated(v).(la := BROADCAST));
    case SetCallback(_) =>
    case Process(m) =>
      match (m.kind, m.payload) {
        case (StateType, AddDeviceText(profile, parent)) =>
          var p := Find(v.tree, parent);
          if p.Some? && !Rejects(v, p.value) {
            EmulatedAfterAdd(v, profile, p.value);
          }
        case (StateType, RemoveDeviceText(name)) =>
          var k := FirstNamed(v.tree.kids, name);
          if k.Some? && v.emulated.Some? && v.emulated.value.Down? && AfterDrop(k.value, v.emulated.value.below).Some? {
            DropKeeps(v.tree.kids, k.value, v.emulated.value.below);
          }
        case _ =>
      }
  }

  lemma EmulatedAfterAdd(v: View, profile: Profile, p: Pos)
    requires Alive(v) && Has(v.tree, p)
    ensures var e, t := v.emulated.value, Grown(v, profile, p).tree;
            && At(t, AfterInsert(p, e)) == At(v.tree, e).(pa := At(t, AfterInsert(p, e)).pa, la := At(t, AfterInsert(p, e)).la)
            && (At(v.tree, e).la != UNKNOWN ==> At(t, AfterInsert(p, e)).la == At(v.tree, e).la)
            && (e == Here <==> AfterInsert(p, e) == Here)
  {
    InsertKeeps(v.tree, p, Build(profile), v.emulated.value);
    PassKeeps(InsertUnder(v.tree, p, Build(profile)), None, Emulated(v).name, v.pool, AfterInsert(p, v.emulated.value));
  }

  /** Whether the last call for address 0 was an add, given how it stood before. */
  predicate Added(ops: seq<Op>, before: bool)
    decreases ops
  {
    if ops == [] then before
    else Added(ops[1..], if ops[0] == Add(0) then true else if ops[0] == Remove(0) then false else before)
  }

  lemma {:induction false} TransmitFrom(v: View, ops: seq<Op>, before: bool)
    requires Safe(v, ops) && Run(v, ops).emulated.Some? && v.emulated.Some?
    requires Emulated(v).kind == TV ==> Emulated(v).la == if before then 0 else 15
    ensures Emulated(Run(v, ops)).kind == Emulated(v).kind
    ensures Tx(Run(v, ops)) == if Emulated(v).kind != TV || Added(ops, before) then Success else SentFailed
    ensures Emulated(v).kind == TV ==> LastWasAdd(v, ops, before) == Added(ops, before)
    decreases ops
  {
    if ops != [] {
      var op, w := ops[0], Step(v, ops[0]).0;
      EmulatedStep(v, op);
      if w.emulated.None? {
        FreedForGood(w, ops[1..]);
      } else {
        if op.Add? {
          AddingAddress(v, op.address, v.emulated.value);
        } else if op.Remove? {
          RemovingAddress(v, op.address, v.emulated.value);
        }
        TransmitFrom(w, ops[1..], if op == Add(0) then true else if op == Remove(0) then false else before);
      }
    }
  }

  /**
    Over every run from opening after which the emulated device is still there: a device whose
    profile type is not TV can always transmit, and a TV, wherever it is in the map, exactly
    when the latest successful add or remove was an add, that is when the last call for
    address 0 was.
  */
  lemma TransmitIff(c: Config, ops: seq<Op>)
    requires Opened(c).Some? && Safe(Opened(c).value, ops) && Run(Opened(c).value, ops).emulated.Some?
    ensures var v, p := Opened(c).value, Find(Build(c.profile), c.emulated);
            && p.Some?
            && (At(Build(c.profile), p.value).kind != TV ==> Tx(Run(v, ops)) == Success)
            && (At(Build(c.profile), p.value).kind == TV ==>
                  && Tx(Run(v, ops)) == (if LastWasAdd(v, ops, false) then Success else SentFailed)
                  && LastWasAdd(v, ops, false) == Added(ops, false))
  {
    var v := Opened(c).value;
    var p := v.emulated.value;
    PassKeeps(Build(c.profile), None, c.emulated, FRESH_POOL, p);
    if Emulated(v).kind == TV {
      AsEmulatedAddress(c);
    }
    TransmitFrom(v, ops, false);
  }
}
