/**
  How long the emulated device lives. RemoveDevice frees it together with the branch of the
  root it hangs in, and nothing else does; the messages alone tell whether a run gets there.
*/
module EmulatedDevice {
  import opened Wrappers
  import opened LogicalAddress
  import opened PhysicalAddress
  import opened Trees
  import opened Network
  import opened MessageQueue
  import opened HalModel

  // ----- one step -----

  /**
    A step frees the emulated device exactly if it is a RemoveDevice message whose name
    leads to the branch of the root that holds the device.
  */
  lemma StepFreesIff(v: View, op: Op)
    requires Alive(v)
    ensures Step(v, op).0.emulated.None? <==>
              && op.Process? && op.m.kind == StateType && op.m.payload.RemoveDeviceText?
              && v.emulated.value.Down?
              && FirstNamed(v.tree.kids, op.m.payload.name) == Some(Branch(v.emulated.value.below))
  {
    if op.Process? && op.m.kind == StateType && op.m.payload.RemoveDeviceText? && v.emulated.value.Down? {
      var k := FirstNamed(v.tree.kids, op.m.payload.name);
      if k.Some? {
        SiblingIsFound(v.tree.kids, k.value);
        DroppedIff(k.value, v.emulated.value.below);
      }
    }
  }

  lemma {:induction false} SiblingIsFound(t: Tree<Info>, k: nat)
    requires k < Siblings(t)
    ensures Find(t, Sibling(t, k).val.name).Some?
  {
    if k > 0 {
      SiblingIsFound(t.rest, k - 1);
    }
  }

  /** Once freed, the emulated device does not come back. */
  lemma {:induction false} FreedForGood(v: View, ops: seq<Op>)
    requires Safe(v, ops) && v.emulated.None?
    ensures Run(v, ops).emulated.None?
    decreases ops
  {
    if ops != [] {
      FreedForGood(Step(v, ops[0]).0, ops[1..]);
    }
  }

  // ----- the branch and its guards -----

  /** The name at the root of the branch that holds the node at `q`. */
  function BranchName(t: Tree<Info>, q: Pos): (name: string)
    requires Has(t, q)
  {
    match q
    case Across(r) => BranchName(t.rest, r)
    case _ => t.val.name
  }

  /** How many trees of the chain with this name come before the branch that holds the node at `q`. */
  function Guards(t: Tree<Info>, q: Pos, name: string): (n: nat)
    requires Has(t, q)
  {
    match q
    case Across(r) => Bit(t.val.name == name) + Guards(t.rest, r, name)
    case _ => 0
  }

  lemma {:induction false} InsertGuards(t: Tree<Info>, p: Pos, sub: Tree<Info>, q: Pos, name: string)
    requires Has(t, p) && Has(t, q) && sub.Node?
    ensures var u, r := InsertUnder(t, p, sub), AfterInsert(p, q);
            Has(u, r) && BranchName(u, r) == BranchName(t, q) && Guards(u, r, name) == Guards(t, q, name)
  {
    InsertKeeps(t, p, sub, q);
    match (p, q)
    case (Across(a), Across(b)) => InsertGuards(t.rest, a, sub, b, name);
    case (Down(_), Down(_)) =>
    case (Here, _) =>
    case (Down(_), _) =>
    case (Across(_), _) =>
  }

  lemma {:induction false} PassGuards(t: Tree<Info>, parent: Option<Word>, emulated: string, pool: Pool, q: Pos, name: string)
    requires Has(t, q)
    ensures var u := Pass(t, parent, emulated, pool).tree;
            Has(u, q) && BranchName(u, q) == BranchName(t, q) && Guards(u, q, name) == Guards(t, q, name)
  {
    match q
    case Across(r) => PassGuards(t.rest, parent, emulated, PoolAfter(parent, t.val, pool), r, name);
    case Here =>
    case Down(_) => PassKeeps(t, parent, emulated, pool, q);
  }

  lemma {:induction false} PutGuards(t: Tree<Info>, q: Pos, d: Info, name: string)
    requires Has(t, q) && d.name == At(t, q).name
    ensures var u := Put(t, q, d);
            Has(u, q) && BranchName(u, q) == BranchName(t, q) && Guards(u, q, name) == Guards(t, q, name)
  {
    PutHas(t, q, d);
    match q
    case Across(r) => PutGuards(t.rest, r, d, name);
    case Here =>
    case Down(_) =>
  }

  lemma {:induction false} DropGuards(t: Tree<Info>, k: nat, q: Pos, name: string)
    requires k < Siblings(t) && Has(t, q) && AfterDrop(k, q).Some?
    ensures var u, r := DropSibling(t, k), AfterDrop(k, q).value;
            && Has(u, r) && BranchName(u, r) == BranchName(t, q)
            && Guards(t, q, name) == Guards(u, r, name) + Bit(k < Branch(q) && Sibling(t, k).val.name == name)
  {
    DropKeeps(t, k, q);
    match q
    case Across(r) =>
      if k > 0 {
        DropGuards(t.rest, k - 1, r, name);
      }
    case Here =>
    case Down(_) =>
  }

  lemma {:induction false} BranchIsSibling(t: Tree<Info>, q: Pos)
    requires Has(t, q)
    ensures Branch(q) < Siblings(t) && Sibling(t, Branch(q)).val.name == BranchName(t, q)
  {
    match q
    case Across(r) => BranchIsSibling(t.rest, r);
    case Here =>
    case Down(_) =>
  }

  /** The branch's name leads to the branch itself exactly if no guard is left. */
  lemma {:induction false} NameLeadsToBranch(t: Tree<Info>, q: Pos)
    requires Has(t, q)
    ensures var name, k := BranchName(t, q), FirstNamed(t, BranchName(t, q));
            k.Some? && k.value <= Branch(q) && (k.value == Branch(q) <==> Guards(t, q, name) == 0)
  {
    match q
    case Across(r) => NameLeadsToBranch(t.rest, r);
    case Here =>
    case Down(_) =>
  }

  // ----- reading a run's messages -----

  predicate Removes(op: Op, name: string) {
    op == Process(Message(StateType, RemoveDeviceText(name)))
  }

  /** The op asks for a new child of the root with this name. */
  predicate AddsChild(op: Op, root: string, name: string) {
    op.Process? && op.m.kind == StateType && op.m.payload.AddDeviceText?
    && op.m.payload.parent == root && op.m.payload.profile.name == name
  }

  /**
    Never does a RemoveDevice for the branch's name find the branch unguarded: every
    AddDevice of that name to the root puts a guard in front of it, every RemoveDevice of
    that name takes one away.
  */
  predicate Spared(ops: seq<Op>, root: string, branch: string, guards: nat)
    decreases ops
  {
    ops == [] ||
    if Removes(ops[0], branch) then 0 < guards && Spared(ops[1..], root, branch, guards - 1)
    else Spared(ops[1..], root, branch, guards + Bit(AddsChild(ops[0], root, branch)))
  }

  /** What the emulated device lives through: everything at the root, else what its branch is spared. */
  predicate Endures(v: View, ops: seq<Op>)
    requires Mapped(v)
  {
    match v.emulated
    case None => false
    case Some(Down(q)) =>
      var branch := BranchName(v.tree.kids, q);
      Spared(ops, v.tree.val.name, branch, Guards(v.tree.kids, q, branch))
    case Some(_) => true
  }

  /** The emulated device hangs below the root, in this branch, behind so many guards. */
  ghost predicate Hangs(v: View, root: string, branch: string, guards: nat) {
    && Alive(v) && v.tree.val.name == root && v.emulated.value.Down?
    && BranchName(v.tree.kids, v.emulated.value.below) == branch
    && Guards(v.tree.kids, v.emulated.value.below, branch) == guards
  }

  lemma AddHangs(v: View, profile: Profile, parent: string, root: string, branch: string, guards: nat)
    requires Hangs(v, root, branch, guards)
    ensures Hangs(AddDevice(v, profile, parent), root, branch, guards + Bit(parent == root && profile.name == branch))
  {
    var found := Find(v.tree, parent);
    if found.Some? && !Rejects(v, found.value) {
      var p, q, sub, name := found.value, v.emulated.value.below, Build(profile), Emulated(v).name;
      var grown := InsertUnder(v.tree, p, sub);
      PassFromRoot(grown, name, v.pool);
      match p {
        case Here =>
          var kids := sub.(rest := v.tree.kids);
          assert grown.kids == kids && Guards(kids, Across(q), branch) == Bit(profile.name == branch) + guards;
          PassGuards(kids, Some(0), name, v.pool, Across(q), branch);
        case Down(a) =>
          InsertGuards(v.tree.kids, a, sub, q, branch);
          PassGuards(grown.kids, Some(0), name, v.pool, AfterInsert(a, q), branch);
      }
    }
  }

  lemma RemoveHangs(v: View, name: string, root: string, branch: string, guards: nat)
    requires Hangs(v, root, branch, guards)
    ensures var w := RemoveDevice(v, name);
            if name == branch && guards == 0 then w.emulated.None?
            else Hangs(w, root, branch, if name == branch then guards - 1 else guards)
  {
    var q, k := v.emulated.value.below, FirstNamed(v.tree.kids, name);
    BranchIsSibling(v.tree.kids, q);
    NameLeadsToBranch(v.tree.kids, q);
    if k.Some? {
      SiblingIsFound(v.tree.kids, k.value);
      DroppedIff(k.value, q);
      if k.value != Branch(q) {
        DropGuards(v.tree.kids, k.value, q, branch);
      }
    }
  }

  lemma StepHangs(v: View, op: Op, root: string, branch: string, guards: nat)
    requires Hangs(v, root, branch, guards)
    ensures var w := Step(v, op).0;
            if Removes(op, branch) && guards == 0 then w.emulated.None?
            else Hangs(w, root, branch,
                       if Removes(op, branch) then guards - 1 else guards + Bit(AddsChild(op, root, branch)))
  {
    var q := v.emulated.value.below;
    match op
    case Add(_) => PutGuards(v.tree.kids, q, Emulated(v).(la := 0), branch);
    case Remove(_) => PutGuards(v.tree.kids, q, Emulated(v).(la := BROADCAST), branch);
    case SetCallback(_) =>
    case Process(m) =>
      match (m.kind, m.payload) {
        case (StateType, AddDeviceText(profile, parent)) => AddHangs(v, profile, parent, root, branch, guards);
        case (StateType, RemoveDeviceText(name)) => RemoveHangs(v, name, root, branch, guards);
        case _ =>
      }
  }

  lemma {:induction false} SparedIff(v: View, ops: seq<Op>, root: string, branch: string, guards: nat)
    requires Hangs(v, root, branch, guards)
    ensures Safe(v, ops) && Run(v, ops).emulated.Some? <==> Spared(ops, root, branch, guards)
    decreases ops
  {
    if ops != [] {
      StepHangs(v, ops[0], root, branch, guards);
      var w := Step(v, ops[0]).0;
      if Removes(ops[0], branch) && guards == 0 {
        if Safe(w, ops[1..]) {
          FreedForGood(w, ops[1..]);
        }
      } else if Removes(ops[0], branch) {
        SparedIff(w, ops[1..], root, branch, guards - 1);
      } else {
        SparedIff(w, ops[1..], root, branch, guards + Bit(AddsChild(ops[0], root, branch)));
      }
    }
  }
  // ----- an emulated root -----

  /** An insertion keeps the root, but for its physical address, which is 0. */
  lemma GrownRoot(v: View, profile: Profile, p: Pos)
    requires Alive(v) && Has(v.tree, p) && v.emulated == Some(Here)
    ensures var root := Grown(v, profile, p).tree.val;
            && AfterInsert(p, Here) == Here
            && root == v.tree.val.(pa := 0, la := root.la)
            && (v.tree.val.la != UNKNOWN ==> root.la == v.tree.val.la)
  {
    PassFromRoot(InsertUnder(v.tree, p, Build(profile)), Emulated(v).name, v.pool);
  }

  /** No step frees or replaces an emulated root. */
  lemma StepKeepsRoot(v: View, op: Op)
    requires Alive(v) && v.emulated == Some(Here)
    ensures var w := Step(v, op).0;
            && Alive(w) && w.emulated == Some(Here) && w.numPorts == v.numPorts
            && w.tree.val.kind == v.tree.val.kind && w.tree.val.name == v.tree.val.name
            && w.tree.val.numberChildren == v.tree.val.numberChildren
            && (w.tree.val.pa == v.tree.val.pa || w.tree.val.pa == 0)
            && (v.tree.val.la != UNKNOWN && op.Process? ==> w.tree.val.la == v.tree.val.la)
  {
    if op.Process? && op.m.kind.StateType? && op.m.payload.AddDeviceText? {
      var p := Find(v.tree, op.m.payload.parent);
      if p.Some? && !Rejects(v, p.value) {
        GrownRoot(v, op.m.payload.profile, p.value);
      }
    }
  }

  /** An emulated root is never freed or replaced, so with it every run is safe. */
  lemma {:induction false} RootRunsAreSafe(v: View, ops: seq<Op>)
    requires Alive(v) && v.emulated == Some(Here)
    ensures Safe(v, ops)
    ensures var w := Run(v, ops);
            && w.emulated == Some(Here) && w.numPorts == v.numPorts
            && w.tree.val.kind == v.tree.val.kind && w.tree.val.name == v.tree.val.name
            && w.tree.val.numberChildren == v.tree.val.numberChildren
    decreases ops
  {
    if ops != [] {
      StepKeepsRoot(v, ops[0]);
      RootRunsAreSafe(Step(v, ops[0]).0, ops[1..]);
    }
  }

  // ----- whole runs -----

  /** The emulated device is there at the end of a run exactly if it endures the run's messages. */
  lemma EmulatedEnduresIff(v: View, ops: seq<Op>)
    requires Alive(v)
    ensures Safe(v, ops) && Run(v, ops).emulated.Some? <==> Endures(v, ops)
  {
    if v.emulated.value.Down? {
      var q := v.emulated.value.below;
      var branch := BranchName(v.tree.kids, q);
      SparedIff(v, ops, v.tree.val.name, branch, Guards(v.tree.kids, q, branch));
    } else {
      assert v.emulated.value.Across? ==> Has(v.tree.rest, v.emulated.value.beside);
      RootRunsAreSafe(v, ops);
    }
  }

  lemma {:induction false} UntouchedIsSpared(ops: seq<Op>, root: string, branch: string, guards: nat)
    requires forall i :: 0 <= i < |ops| ==> !Removes(ops[i], branch)
    ensures Spared(ops, root, branch, guards)
    decreases ops
  {
    if ops != [] {
      var rest := ops[1..];
      assert forall i :: 0 <= i < |rest| ==> rest[i] == ops[i + 1];
      UntouchedIsSpared(rest, root, branch, guards + Bit(AddsChild(ops[0], root, branch)));
    }
  }

  /**
    A run has a meaning exactly if none of its steps looks at the emulated device once the
    messages before that step have freed it.
  */
  lemma {:induction false} SafeIff(v: View, ops: seq<Op>)
    requires Mapped(v)
    ensures Safe(v, ops) <==>
              forall n :: 0 <= n < |ops| && Safe(v, ops[..n]) && !Endures(v, ops[..n])
                ==> !Needs(Run(v, ops[..n]).tree, ops[n])
    decreases |ops|
  {
    if ops != [] {
      var last := |ops| - 1;
      var init := ops[..last];
      assert ops == init + [ops[last]];
      assert forall n :: 0 <= n < last ==> init[..n] == ops[..n] && init[n] == ops[n];
      SafeIff(v, init);
      SafeLast(v, init, ops[last]);
      if Safe(v, init) {
        if v.emulated.Some? {
          EmulatedEnduresIff(v, init);
        } else {
          FreedForGood(v, init);
        }
      }
    }
  }

  /** An op that never looks at the emulated device, whatever the network. */
  predicate Indifferent(op: Op) {
    match op
    case Add(_) => false
    case Remove(_) => false
    case SetCallback(_) => true
    case Process(m) => m.kind != StateType || !(m.payload.AddDeviceText? || m.payload.PrintText?)
  }

  /** So enduring runs have a meaning, and runs of indifferent ops. */
  lemma EnduringIsSafe(v: View, ops: seq<Op>)
    requires Mapped(v)
    ensures Endures(v, ops) ==> Safe(v, ops)
    ensures (forall i :: 0 <= i < |ops| ==> Indifferent(ops[i])) ==> Safe(v, ops)
  {
    if v.emulated.Some? {
      EmulatedEnduresIff(v, ops);
    }
    SafeIff(v, ops);
  }

  /** A device below the root lives on if no message removes a device of its branch's name. */
  lemma UntouchedBranchEndures(v: View, ops: seq<Op>)
    requires Alive(v) && v.emulated.value.Down?
    requires forall i :: 0 <= i < |ops| ==> !Removes(ops[i], BranchName(v.tree.kids, v.emulated.value.below))
    ensures Endures(v, ops) && Safe(v, ops) && Run(v, ops).emulated.Some?
  {
    var branch := BranchName(v.tree.kids, v.emulated.value.below);
    UntouchedIsSpared(ops, v.tree.val.name, branch, Guards(v.tree.kids, v.emulated.value.below, branch));
    EmulatedEnduresIff(v, ops);
  }
}
