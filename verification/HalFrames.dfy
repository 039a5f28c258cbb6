/**
  What the receive callback is handed: announcements and commands carry the addresses of the
  devices they name, and what else can be delivered.
*/
module HalFrames {
  import opened Wrappers
  import opened LogicalAddress
  import opened PhysicalAddress
  import opened Trees
  import opened Network
  import opened Lookup
  import opened Command
  import opened MessageQueue
  import opened HalModel

  // ----- the network frames are made from -----

  /** Every device of the chain, and below it, has been given a logical address. */
  predicate Assigned(t: Tree<Info>) {
    t.Node? ==> t.val.la != UNKNOWN && Assigned(t.kids) && Assigned(t.rest)
  }

  /** The emulated TV, whose addresses opening sets by hand. */
  predicate IsEmulatedTv(v: View, p: Pos)
    requires Has(v.tree, p)
  {
    v.emulated == Some(p) && At(v.tree, p).kind == TV
  }

  /** Every device's physical address is its port path, but for an emulated TV's, which may be 0. */
  ghost predicate Addressed(v: View) {
    forall p :: Has(v.tree, p) ==>
      At(v.tree, p).pa == AddressOf(PortPath(v.tree, p)) || (IsEmulatedTv(v, p) && At(v.tree, p).pa == 0)
  }

  ghost predicate Reached(v: View) {
    Mapped(v) && Assigned(v.tree.kids) && Addressed(v)
  }

  lemma {:induction false} PassAssigns(t: Tree<Info>, parent: Word, emulated: string, pool: Pool)
    ensures Assigned(Pass(t, Some(parent), emulated, pool).tree)
  {
    if t.Node? {
      var pool' := PoolAfter(Some(parent), t.val, pool);
      PassAssigns(t.rest, parent, emulated, pool');
      PassAssigns(t.kids, Extend(parent, t.val.port), emulated, Pass(t.rest, Some(parent), emulated, pool').pool);
    }
  }

  lemma {:induction false} AssignedKeepsPool(t: Tree<Info>, parent: Word, emulated: string, pool: Pool)
    requires Assigned(t)
    ensures Pass(t, Some(parent), emulated, pool).pool == pool
  {
    if t.Node? {
      AssignedKeepsPool(t.rest, parent, emulated, pool);
      AssignedKeepsPool(t.kids, Extend(parent, t.val.port), emulated, pool);
    }
  }

  /** Among devices that have addresses, a new one is served first. */
  lemma {:induction false} InsertFirstFit(t: Tree<Info>, parent: Word, emulated: string, pool: Pool, p: Pos, sub: Tree<Info>)
    requires Has(t, p) && sub.Node? && sub.rest.Nil? && sub.val.la == UNKNOWN && Assigned(t)
    ensures var u := Pass(InsertUnder(t, p, sub), Some(parent), emulated, pool).tree;
            Has(u, Inserted(p)) && At(u, Inserted(p)).la == FirstFit(pool, sub.val.kind)
  {
    var below := Extend(parent, t.val.port);
    match p
    case Here =>
      AssignedKeepsPool(t.rest, parent, emulated, pool);
    case Down(q) =>
      AssignedKeepsPool(t.rest, parent, emulated, pool);
      InsertFirstFit(t.kids, below, emulated, pool, q, sub);
    case Across(q) => InsertFirstFit(t.rest, parent, emulated, pool, q, sub);
  }

  lemma {:induction false} InsertedPorts(t: Tree<Info>, p: Pos, sub: Tree<Info>)
    requires Has(t, p) && sub.Node?
    ensures var u := InsertUnder(t, p, sub);
            Has(u, Inserted(p)) && Ports(u, Inserted(p)) == Ports(t, p) + [sub.val.port]
  {
    InsertedIsThere(t, p, sub);
    match p
    case Here =>
    case Down(q) => InsertedPorts(t.kids, q, sub);
    case Across(q) => InsertedPorts(t.rest, q, sub);
  }

  /** A pass keeps every port path. */
  lemma {:induction false} PassPaths(t: Tree<Info>, parent: Option<Word>, emulated: string, pool: Pool, p: Pos)
    requires Has(t, p)
    ensures Has(Pass(t, parent, emulated, pool).tree, p)
    ensures Ports(Pass(t, parent, emulated, pool).tree, p) == Ports(t, p)
    ensures PortPath(Pass(t, parent, emulated, pool).tree, p) == PortPath(t, p)
  {
    var siblings := Pass(t.rest, parent, emulated, PoolAfter(parent, t.val, pool));
    match p
    case Here =>
    case Down(q) => PassPaths(t.kids, Some(PhysicalFor(parent, t.val.port)), emulated, siblings.pool, q);
    case Across(q) => PassPaths(t.rest, parent, emulated, PoolAfter(parent, t.val, pool), q);
  }

  lemma {:induction false} PutPaths(t: Tree<Info>, p: Pos, d: Info, q: Pos)
    requires Has(t, p) && d.port == At(t, p).port
    ensures var u := Put(t, p, d);
            && Has(u, q) == Has(t, q)
            && (Has(t, q) ==> At(u, q) == (if p == q then d else At(t, q)) && Ports(u, q) == Ports(t, q)
                              && PortPath(u, q) == PortPath(t, q))
  {
    match (p, q)
    case (Down(a), Down(b)) => PutPaths(t.kids, a, d, b);
    case (Across(a), Across(b)) => PutPaths(t.rest, a, d, b);
    case (Here, _) =>
    case (Down(_), _) =>
    case (Across(_), _) =>
  }

  lemma {:induction false} PutAssigned(t: Tree<Info>, p: Pos, d: Info)
    requires Has(t, p) && Assigned(t) && d.la != UNKNOWN
    ensures Assigned(Put(t, p, d))
  {
    match p
    case Here =>
    case Down(q) => PutAssigned(t.kids, q, d);
    case Across(q) => PutAssigned(t.rest, q, d);
  }

  /** Where the node at `q` was before the k-th tree of its chain was dropped. */
  function BeforeDrop(k: nat, q: Pos): (before: Pos)
    ensures AfterDrop(k, before) == Some(q)
  {
    if k == 0 then Across(q)
    else
      match q
      case Across(r) => Across(BeforeDrop(k - 1, r))
      case _ => q
  }

  lemma {:induction false} DropPaths(t: Tree<Info>, k: nat, q: Pos)
    requires k < Siblings(t) && Has(DropSibling(t, k), q)
    ensures var before := BeforeDrop(k, q);
            && Has(t, before) && At(t, before) == At(DropSibling(t, k), q)
            && Ports(t, before) == Ports(DropSibling(t, k), q)
  {
    if k > 0 {
      match q
      case Across(r) => DropPaths(t.rest, k - 1, r);
      case Here =>
      case Down(_) =>
    }
  }

  lemma {:induction false} DropAssigned(t: Tree<Info>, k: nat)
    requires k < Siblings(t) && Assigned(t)
    ensures Assigned(DropSibling(t, k))
  {
    if k > 0 {
      DropAssigned(t.rest, k - 1);
    }
  }

  /** What a pass from the root leaves behind. */
  lemma PassReaches(t: Tree<Info>, emulated: string, pool: Pool, p: Pos)
    requires t.Node? && t.rest.Nil?
    ensures var u := Pass(t, None, emulated, pool).tree;
            && u.Node? && Assigned(u.kids)
            && (Has(u, p) ==> At(u, p).pa == AddressOf(PortPath(u, p)))
  {
    PassFromRoot(t, emulated, pool);
    PassAssigns(t.kids, 0, emulated, pool);
    PassKeeps(t, None, emulated, pool, p);
    if Has(t, p) {
      PhysicalAddressIsPath(t, emulated, pool, p);
      PassPaths(t, None, emulated, pool, p);
    }
  }

  lemma OpenReaches(c: Config)
    requires Opened(c).Some?
    ensures Reached(Opened(c).value)
  {
    var v := Opened(c).value;
    var e := v.emulated.value;
    var t := FirstPass(c, e).tree;
    var d := At(t, e).(pa := 0, la := BROADCAST);
    PassReaches(Build(c.profile), c.emulated, FRESH_POOL, e);
    if e.Down? {
      PutAssigned(t.kids, e.below, d);
    }
    forall p | Has(v.tree, p)
      ensures At(v.tree, p).pa == AddressOf(PortPath(v.tree, p)) || (IsEmulatedTv(v, p) && At(v.tree, p).pa == 0)
    {
      PutPaths(t, e, d, p);
      PassReaches(Build(c.profile), c.emulated, FRESH_POOL, p);
    }
  }

  /** Changing the emulated device's logical address. */
  lemma PutReaches(v: View, la: Address)
    requires Reached(v) && v.emulated.Some? && la != UNKNOWN
    ensures Reached(v.(tree := Put(v.tree, v.emulated.value, Emulated(v).(la := la))))
  {
    var e, d := v.emulated.value, Emulated(v).(la := la);
    var w := v.(tree := Put(v.tree, e, d));
    PutHas(v.tree, e, d);
    if e.Down? {
      PutAssigned(v.tree.kids, e.below, d);
    }
    forall p | Has(w.tree, p)
      ensures At(w.tree, p).pa == AddressOf(PortPath(w.tree, p)) || (IsEmulatedTv(w, p) && At(w.tree, p).pa == 0)
    {
      PutPaths(v.tree, e, d, p);
    }
  }

  lemma AddReaches(v: View, profile: Profile, p: Pos)
    requires Alive(v) && Has(v.tree, p)
    ensures var g := Grown(v, profile, p);
            Reached(v.(tree := g.tree, pool := g.pool, emulated := Some(AfterInsert(p, v.emulated.value))))
  {
    var g := Grown(v, profile, p);
    GrownHas(v, profile, p);
    forall q
      ensures Assigned(g.tree.kids) && (Has(g.tree, q) ==> At(g.tree, q).pa == AddressOf(PortPath(g.tree, q)))
    {
      PassReaches(InsertUnder(v.tree, p, Build(profile)), Emulated(v).name, v.pool, q);
    }
  }

  lemma RemoveReaches(v: View, name: string)
    requires Reached(v)
    ensures Reached(RemoveDevice(v, name))
  {
    var w, op := RemoveDevice(v, name), Process(Message(StateType, RemoveDeviceText(name)));
    StepMapped(v, op);
    assert w == Step(v, op).0;
    var k := FirstNamed(v.tree.kids, name);
    if Find(v.tree, name).Some? && k.Some? {
      DropAssigned(v.tree.kids, k.value);
      forall p | Has(w.tree, p)
        ensures At(w.tree, p).pa == AddressOf(PortPath(w.tree, p)) || (IsEmulatedTv(w, p) && At(w.tree, p).pa == 0)
      {
        assert p.Across? ==> Has(w.tree.rest, p.beside);
        var before := if p.Down? then Down(BeforeDrop(k.value, p.below)) else Here;
        if p.Down? {
          DropPaths(v.tree.kids, k.value, p.below);
        }
        assert Has(v.tree, before) && At(w.tree, p) == At(v.tree, before) && PortPath(w.tree, p) == PortPath(v.tree, before);
        assert IsEmulatedTv(v, before) ==> IsEmulatedTv(w, p);
      }
    }
  }

  /** Over every run from opening, every device has its addresses. */
  lemma {:induction false} RunReaches(v: View, ops: seq<Op>)
    requires Reached(v) && Safe(v, ops)
    ensures Reached(Run(v, ops))
    decreases ops
  {
    if ops != [] {
      StepReaches(v, ops[0]);
      RunReaches(Step(v, ops[0]).0, ops[1..]);
    }
  }

  lemma StepReaches(v: View, op: Op)
    requires Reached(v) && Defined(v, op)
    ensures Reached(Step(v, op).0)
  {
    match op
    case Add(_) => PutReaches(v, 0);
    case Remove(_) => PutReaches(v, BROADCAST);
    case SetCallback(on) => SameNetworkReaches(v, v.(callback := on));
    case Process(m) =>
      match (m.kind, m.payload) {
        case (StateType, AddDeviceText(profile, parent)) =>
          var p := Find(v.tree, parent);
          if p.Some? && !Rejects(v, p.value) {
            var g := Grown(v, profile, p.value);
            AddReaches(v, profile, p.value);
            SameNetworkReaches(v.(tree := g.tree, pool := g.pool, emulated := Some(AfterInsert(p.value, v.emulated.value))),
                               AddDevice(v, profile, parent));
          }
        case (StateType, RemoveDeviceText(name)) => RemoveReaches(v, name);
        case _ => SameNetworkReaches(v, Handle(v, m));
      }
  }

  lemma SameNetworkReaches(v: View, w: View)
    requires Reached(v) && w.tree == v.tree && w.emulated == v.emulated
    ensures Reached(w)
  {
    assert forall p :: Has(w.tree, p) ==> IsEmulatedTv(w, p) == IsEmulatedTv(v, p);
  }

  // ----- frames -----

  /** The message that asks for a device to be added. */
  function AddOp(profile: Profile, parent: string): (op: Op) {
    Process(Message(StateType, AddDeviceText(profile, parent)))
  }

  /** What receivers make of a device's announcement. */
  ghost predicate Announces(rx: Rx, d: Info) {
    && rx.len == |rx.bytes| == 5
    && Decode(rx.bytes) == Some(Frame(d.la, 15, Some(0x84), [d.pa / 0x100, d.pa % 0x100,
         match d.kind
         case TV => 0
         case Recorder => 1
         case Reserved => 2
         case Tuner => 3
         case Playback => 4
         case AudioSystem => 5
         case UnknownType => 6]))
  }

  lemma ReportAnnounces(d: Info)
    requires d.la != UNKNOWN
    ensures Announces(Delivered(Report(d)), d)
  {
    ReportFrame(d);
    DecodeSerialize(Report(d));
    HighByte(d.pa);
    assert AddressBytes(d.pa) + [TypeCode(d.kind)] == [d.pa / 0x100, d.pa % 0x100, TypeCode(d.kind)];
  }

  lemma AddStepIs(v: View, profile: Profile, parent: string)
    requires Mapped(v) && (Find(v.tree, parent).Some? ==> v.emulated.Some?)
    ensures Step(v, AddOp(profile, parent)).0 == AddDevice(v, profile, parent)
  {
  }

  /**
    An accepted AddDevice is announced: the callback gets five bytes that decode to the new
    device's own logical address, the first one free in its class, destination 15, opcode
    0x84, its physical address, which is its port path, and its type.
  */
  lemma AddIsAnnounced(v: View, profile: Profile, parent: string)
    requires Alive(v) && v.callback && Assigned(v.tree.kids) && Find(v.tree, parent).Some?
    requires var p := Find(v.tree, parent).value;
             !(v.emulated == Some(p) && At(v.tree, p).kind == TV && At(v.tree, p).numberChildren >= v.numPorts)
    ensures var p := Find(v.tree, parent).value;
            var w := Step(v, AddOp(profile, parent)).0;
            && Has(w.tree, Inserted(p))
            && (var d := At(w.tree, Inserted(p));
                && d.name == profile.name && d.kind == profile.kind
                && d.la == FirstFit(v.pool, profile.kind)
                && d.pa == AddressOf(PortPath(v.tree, p) + [profile.port])
                && (exists rx :: w.trace == v.trace + [rx] && Announces(rx, d)))
  {
    var p := Find(v.tree, parent).value;
    AddStepIs(v, profile, parent);
    GrownKeeps(v, profile, p);
    GrownAddress(v, profile, p);
    ReportAnnounces(At(Grown(v, profile, p).tree, Inserted(p)));
  }

  /** The addresses of a device just added. */
  lemma GrownAddress(v: View, profile: Profile, p: Pos)
    requires Alive(v) && Assigned(v.tree.kids) && Has(v.tree, p)
    ensures var d := At(Grown(v, profile, p).tree, Inserted(p));
            && d.la == FirstFit(v.pool, profile.kind)
            && d.pa == AddressOf(PortPath(v.tree, p) + [profile.port])
  {
    var sub, name := Build(profile), Emulated(v).name;
    var grown := InsertUnder(v.tree, p, sub);
    InsertedIsThere(v.tree, p, sub);
    PhysicalAddressIsPath(grown, name, v.pool, Inserted(p));
    PassFromRoot(grown, name, v.pool);
    match p
    case Here => assert Ports(grown.kids, Here) == [profile.port];
    case Down(q) =>
      InsertedPorts(v.tree.kids, q, sub);
      InsertFirstFit(v.tree.kids, 0, name, v.pool, q, sub);
    case Across(_) =>
  }

  lemma ReportFrame(d: Info)
    ensures Report(d) == Frame(d.la, BROADCAST, Some(REPORT_PHYSICAL_ADDRESS), AddressBytes(d.pa) + [TypeCode(d.kind)])
  {
    StoredAllTruncates([], AddressBytes(d.pa));
    assert [] + AddressBytes(d.pa) == AddressBytes(d.pa);
  }

  lemma ParsedParams(bytes: seq<Byte>)
    ensures Pushed([], [PushArray(Some(bytes))]) == if |bytes| <= MAX_DATA_SIZE then bytes else []
  {
    PushesKeepPrefix([PushArray(Some(bytes))]);
    assert [PushArray(Some(bytes))][..0] == [];
    assert AllOffered([PushArray(Some(bytes))]) == Offered(PushArray(Some(bytes)));
  }

  /** The nibbles of a two-byte physical address operand. */
  function OperandNibbles(bytes: seq<Byte>): (n: seq<nat>)
    requires |bytes| == 2
  {
    [bytes[0] / 16, bytes[0] % 16, bytes[1] / 16, bytes[1] % 16]
  }

  lemma OperandIsAddress(pa: Word)
    ensures OperandNibbles(AddressBytes(pa)) == Nibbles(pa)
  {
    assert pa / 0x1000 == pa / 0x100 / 16;
    assert pa / 0x10 % 16 == pa % 0x100 / 16;
  }

  /**
    ActiveSource and InactiveSource between named devices: four bytes that decode to both
    logical addresses, the opcode, and the initiator's physical address. Over every run from
    opening that is its port path, or 0 for an emulated TV. `la` is 15 for "broadcast", else
    the address of the device with the destination's name; an unknown initiator is received
    as 15, and an unknown destination makes both addresses 15.
  */
  lemma ActiveSourceFrame(v: View, text: Payload, la: Address)
    requires text.CommandText? && OpcodeOf(text.command) in {0x82, 0x9D} && Find(v.tree, text.initiator).Some?
    requires if text.destination == "broadcast" then la == 15
             else Find(v.tree, text.destination).Some? && la == At(v.tree, Find(v.tree, text.destination).value).la
    ensures var p := Find(v.tree, text.initiator).value;
            var d, bytes := At(v.tree, p), Serialize(Parse(v.tree, text));
            && |bytes| == 4 && Delivered(Parse(v.tree, text)) == Rx(bytes, 4)
            && Decode(bytes) == Some(Frame(if d.la == -1 || la == -1 then 15 else d.la, if la == -1 then 15 else la,
                                           Some(OpcodeOf(text.command)), [d.pa / 0x100, d.pa % 0x100]))
            && OperandNibbles([d.pa / 0x100, d.pa % 0x100]) == Nibbles(d.pa)
            && (Addressed(v) && !(IsEmulatedTv(v, p) && d.pa == 0) ==> d.pa == AddressOf(PortPath(v.tree, p)))
  {
    var d := At(v.tree, Find(v.tree, text.initiator).value);
    ParsedParams(AddressBytes(d.pa));
    ReceivedAs(Parse(v.tree, text));
    TwoBytes(d.pa);
    AddressedAt(v, Find(v.tree, text.initiator).value);
  }

  lemma TwoBytes(pa: Word)
    ensures AddressBytes(pa) == [pa / 0x100, pa % 0x100] && OperandNibbles([pa / 0x100, pa % 0x100]) == Nibbles(pa)
  {
    HighByte(pa);
    assert OperandNibbles(AddressBytes(pa)) == Nibbles(pa) by {
      OperandIsAddress(pa);
    }
  }

  lemma HighByte(pa: Word)
    ensures pa / 0x100 % 0x100 == pa / 0x100
  {
  }

  lemma AddressedAt(v: View, p: Pos)
    requires Has(v.tree, p)
    ensures Addressed(v) && !(IsEmulatedTv(v, p) && At(v.tree, p).pa == 0) ==> At(v.tree, p).pa == AddressOf(PortPath(v.tree, p))
  {
  }

  /**
    Any other known command decodes to both addresses in the same way and to the opcode, with
    the OSD name as operand of SetOsdName and no operand otherwise.
  */
  lemma OtherCommandFrame(t: Tree<Info>, text: Payload, la: Address)
    requires text.CommandText? && OpcodeOf(text.command) !in {-1, 0x82, 0x9D} && Find(t, text.initiator).Some?
    requires if text.destination == "broadcast" then la == 15
             else Find(t, text.destination).Some? && la == At(t, Find(t, text.destination).value).la
    ensures var d := At(t, Find(t, text.initiator).value);
            Decode(Serialize(Parse(t, text))) ==
            Some(Frame(if d.la == -1 || la == -1 then 15 else d.la, if la == -1 then 15 else la, Some(OpcodeOf(text.command)),
                       if OpcodeOf(text.command) == 0x47 && |text.osdName| <= 64 then text.osdName else []))
  {
    var d := At(t, Find(t, text.initiator).value);
    ParsedParams(Parameters(OpcodeOf(text.command), d, text.osdName));
    ReceivedAs(Parse(t, text));
  }

  /** All names of a command are known. */
  predicate Known(t: Tree<Info>, text: Payload) {
    && text.CommandText? && OpcodeOf(text.command) != -1 && Find(t, text.initiator).Some?
    && (text.destination == "broadcast" || Find(t, text.destination).Some?)
  }

  /** An OSD name that fits the parameter buffer but not a frame with its two bytes in front. */
  predicate OverlongName(text: Payload) {
    text.CommandText? && OpcodeOf(text.command) == 0x47 && 62 < |text.osdName| <= 64
  }

  /**
    A command's frame is delivered whole exactly when its names are known and it does not set
    an OSD name of 63 or 64 characters. For unknown names the callback is told of two bytes
    but one is written; for such an OSD name it is told of all bytes but none is written.
  */
  lemma CommandDeliveredWhole(t: Tree<Info>, text: Payload)
    requires text.CommandText?
    ensures var rx := Delivered(Parse(t, text));
            && (rx == Rx(Serialize(Parse(t, text)), |Serialize(Parse(t, text))|) <==> Known(t, text) && !OverlongName(text))
            && (!Known(t, text) ==> rx == Rx([0xFF], 2))
            && (Known(t, text) && OverlongName(text) ==> rx == Rx([], |text.osdName| + 2))
  {
    if Known(t, text) {
      ParsedParams(Parameters(OpcodeOf(text.command), At(t, Find(t, text.initiator).value), text.osdName));
    }
  }

  /** Setting an OSD name of 63 characters delivers nothing. */
  lemma LongOsdName(d: Info)
    ensures var text := CommandText("SetOsdName", d.name, BROADCAST_NAME, seq(63, _ => 65));
            Delivered(Parse(Node(d, Nil, Nil), text)) == Rx([], 65)
  {
    var text := CommandText("SetOsdName", d.name, BROADCAST_NAME, seq(63, _ => 65));
    UsedOpcodes();
    CommandDeliveredWhole(Node(d, Nil, Nil), text);
  }

  /** What receivers are handed for a command message in a network, in plain terms. */
  ghost predicate Carries(rx: Rx, t: Tree<Info>, text: Payload) {
    if !Known(t, text) then rx == Rx([0xFF], 2)
    else if OverlongName(text) then rx == Rx([], |text.osdName| + 2)
    else
      var d, opcode := At(t, Find(t, text.initiator).value), OpcodeOf(text.command);
      var la := if text.destination == "broadcast" then 15 else At(t, Find(t, text.destination).value).la;
      && rx.len == |rx.bytes|
      && Decode(rx.bytes) == Some(Frame(if d.la == -1 || la == -1 then 15 else d.la, if la == -1 then 15 else la, Some(opcode),
           if opcode == 0x82 || opcode == 0x9D then [d.pa / 0x100, d.pa % 0x100]
           else if opcode == 0x47 && |text.osdName| <= 64 then text.osdName
           else []))
  }

  lemma CommandCarried(v: View, text: Payload)
    ensures Carries(Delivered(Parse(v.tree, text)), v.tree, text)
  {
    if Known(v.tree, text) {
      var la := if text.destination == "broadcast" then 15 else At(v.tree, Find(v.tree, text.destination).value).la;
      CommandDeliveredWhole(v.tree, text);
      if OpcodeOf(text.command) in {0x82, 0x9D} {
        ActiveSourceFrame(v, text, la);
      } else {
        OtherCommandFrame(v.tree, text, la);
      }
    }
  }

  /** What a callback may be handed: a whole frame, the one byte of an unknown command, or a frame too long to write. */
  predicate Deliverable(rx: Rx) {
    rx.len == |rx.bytes| || rx == Rx([0xFF], 2) || (rx.bytes == [] && MAX_DATA_SIZE < rx.len <= MAX_DATA_SIZE + 2)
  }

  ghost predicate TraceDeliverable(v: View) {
    forall i :: 0 <= i < |v.trace| ==> Deliverable(v.trace[i])
  }

  lemma ParseDeliverable(t: Tree<Info>, text: Payload)
    ensures Deliverable(Delivered(Parse(t, text)))
  {
    if text.CommandText? {
      CommandDeliveredWhole(t, text);
    }
  }

  /** Over every run, nothing else is ever delivered. */
  lemma {:induction false} RunDeliverable(v: View, ops: seq<Op>)
    requires Safe(v, ops) && TraceDeliverable(v)
    ensures TraceDeliverable(Run(v, ops))
    decreases ops
  {
    if ops != [] {
      StepDeliverable(v, ops[0]);
      RunDeliverable(Step(v, ops[0]).0, ops[1..]);
    }
  }

  lemma StepDeliverable(v: View, op: Op)
    requires Defined(v, op) && TraceDeliverable(v)
    ensures TraceDeliverable(Step(v, op).0)
  {
    match op
    case Process(m) =>
      match (m.kind, m.payload) {
        case (CommandType, text) => ParseDeliverable(v.tree, text);
        case (StateType, AddDeviceText(profile, parent)) =>
          var p := Find(v.tree, parent);
          if p.Some? && !Rejects(v, p.value) {
            ReportFrame(At(Grown(v, profile, p.value).tree, Inserted(p.value)));
          }
        case _ =>
      }
    case _ =>
  }
}
