/**
  The HAL as a state machine over values: what opening, the API calls and the handling of
  control-plane messages do to the network, the pool and the frames delivered.
*/
module HalModel {
  import opened Wrappers
  import opened LogicalAddress
  import opened PhysicalAddress
  import opened Trees
  import opened Network
  import opened Lookup
  import opened Command
  import opened MessageQueue

  /** What the receive callback is handed: the bytes written at the buffer's start and the reported length. */
  datatype Rx = Rx(bytes: seq<Byte>, len: nat)

  datatype Status =
    | Success | NotOpened | AlreadyOpen | InvalidHandle | InvalidArgument
    | AlreadyRemoved | SentFailed | SentNotAcked | GeneralError

  /**
    An open HAL. `emulated` is where the emulated device is in the map, or nothing once it
    was freed. `retired` are the addresses below 15 of devices that were removed.
  */
  datatype View = View(
    tree: Tree<Info>,
    emulated: Option<Pos>,
    numPorts: nat,
    pool: Pool,
    callback: bool,
    trace: seq<Rx>,
    retired: set<int>)

  /** The map is a single tree, and the emulated device is in it unless it was freed. */
  predicate Mapped(v: View) {
    v.tree.Node? && v.tree.rest.Nil? && (v.emulated.Some? ==> Has(v.tree, v.emulated.value))
  }

  predicate Alive(v: View) {
    Mapped(v) && v.emulated.Some?
  }

  function Emulated(v: View): (d: Info)
    requires Alive(v)
  {
    At(v.tree, v.emulated.value)
  }

  // ----- opening -----

  datatype Config = Config(emulated: string, numPorts: nat, profile: Profile)

  /** The first pass, over the map just built. */
  function FirstPass(c: Config, p: Pos): (a: Allocation)
    requires Has(Build(c.profile), p)
    ensures Has(a.tree, p) && a.tree.Node? && a.tree.rest.Nil?
  {
    PassHas(Build(c.profile), None, c.emulated, FRESH_POOL, p);
    Pass(Build(c.profile), None, c.emulated, FRESH_POOL)
  }

  /** An emulated TV starts at physical address 0 without a logical address of its own. */
  function AsEmulated(t: Tree<Info>, p: Pos): (r: Tree<Info>)
    requires Has(t, p)
    ensures Has(r, p) && r.Node? && r.rest.Nil? == t.rest.Nil?
    ensures At(r, p).kind == At(t, p).kind && At(r, p).name == At(t, p).name
  {
    PutHas(t, p, At(t, p).(pa := 0, la := BROADCAST));
    if At(t, p).kind == TV then Put(t, p, At(t, p).(pa := 0, la := BROADCAST)) else t
  }

  /** Opening fails only if the profile has no device with the emulated device's name. */
  function Opened(c: Config): (v: Option<View>)
    ensures v.Some? ==> Alive(v.value)
  {
    match Find(Build(c.profile), c.emulated)
    case None => None
    case Some(p) =>
      var a := FirstPass(c, p);
      Some(View(AsEmulated(a.tree, p), Some(p), c.numPorts, a.pool, false, [], {}))
  }

  lemma PassHas(t: Tree<Info>, parent: Option<Word>, emulated: string, pool: Pool, p: Pos)
    requires Has(t, p)
    ensures Has(Pass(t, parent, emulated, pool).tree, p)
  {
    PassKeeps(t, parent, emulated, pool, p);
  }

  lemma {:induction false} PutHas(t: Tree<Info>, p: Pos, d: Info)
    requires Has(t, p)
    ensures Has(Put(t, p, d), p) && At(Put(t, p, d), p) == d
    ensures Put(t, p, d).Node? && Put(t, p, d).rest.Nil? == t.rest.Nil?
  {
    match p
    case Here =>
    case Down(q) => PutHas(t.kids, q, d);
    case Across(q) => PutHas(t.rest, q, d);
  }

  // ----- frames -----

  /** A frame is serialised into a 64-byte buffer; a longer one is not written at all. */
  function Delivered(f: Frame): (rx: Rx) {
    Rx(if FrameSize(f) <= MAX_DATA_SIZE then Serialize(f) else [], FrameSize(f))
  }

  function Notify(v: View, f: Frame): (w: View) {
    if v.callback then v.(trace := v.trace + [Delivered(f)]) else v
  }

  const REPORT_PHYSICAL_ADDRESS := 0x84
  const ACTIVE_SOURCE := 0x82
  const INACTIVE_SOURCE := 0x9D
  const SET_OSD_NAME := 0x47
  const BROADCAST_NAME := "broadcast"

  function AddressBytes(pa: Word): (bytes: seq<Byte>) {
    [pa / 0x100 % 0x100, pa % 0x100]
  }

  /** The frame that announces a device. */
  function Report(d: Info): (f: Frame) {
    Formatted(d.la, BROADCAST, REPORT_PHYSICAL_ADDRESS)
      .(params := Stored(StoredAll([], AddressBytes(d.pa)), TypeCode(d.kind)))
  }

  /** The logical address a destination name stands for. */
  function DestinationOf(t: Tree<Info>, name: string): (la: Option<Address>) {
    if name == BROADCAST_NAME then Some(BROADCAST)
    else match Find(t, name) case Some(p) => Some(At(t, p).la) case None => None
  }

  function Parameters(opcode: int, src: Info, osdName: seq<Byte>): (bytes: seq<Byte>) {
    if opcode == ACTIVE_SOURCE || opcode == INACTIVE_SOURCE then AddressBytes(src.pa)
    else if opcode == SET_OSD_NAME then osdName
    else []
  }

  /** The frame a command message asks for; the cleared frame if any of its names is unknown. */
  function Parse(t: Tree<Info>, text: Payload): (f: Frame) {
    if !text.CommandText? then CLEAR_FRAME
    else
      var opcode := OpcodeOf(text.command);
      var src := Find(t, text.initiator);
      var dest := DestinationOf(t, text.destination);
      if opcode == OPCODE_UNKNOWN || src.None? || dest.None? then CLEAR_FRAME
      else
        var d := At(t, src.value);
        Formatted(d.la, dest.value, opcode)
          .(params := Pushed([], [PushArray(Some(Parameters(opcode, d, text.osdName)))]))
  }

  // ----- messages -----

  /** A TV being emulated takes no more devices than its profile leaves ports for. */
  predicate Rejects(v: View, p: Pos)
    requires Alive(v) && Has(v.tree, p)
  {
    Some(p) == v.emulated && At(v.tree, p).kind == TV && At(v.tree, p).numberChildren >= v.numPorts
  }

  /** The network after a device was inserted under `p` and the pass was run. */
  function Grown(v: View, profile: Profile, p: Pos): (a: Allocation)
    requires Alive(v) && Has(v.tree, p)
    ensures a.tree.Node? && a.tree.rest.Nil?
    ensures Has(a.tree, Inserted(p)) && Has(a.tree, AfterInsert(p, v.emulated.value))
  {
    GrownHas(v, profile, p);
    Pass(InsertUnder(v.tree, p, Build(profile)), None, Emulated(v).name, v.pool)
  }

  lemma GrownHas(v: View, profile: Profile, p: Pos)
    requires Alive(v) && Has(v.tree, p)
    ensures Has(Pass(InsertUnder(v.tree, p, Build(profile)), None, Emulated(v).name, v.pool).tree, Inserted(p))
    ensures Has(Pass(InsertUnder(v.tree, p, Build(profile)), None, Emulated(v).name, v.pool).tree, AfterInsert(p, v.emulated.value))
    ensures InsertUnder(v.tree, p, Build(profile)).Node? && InsertUnder(v.tree, p, Build(profile)).rest.Nil?
  {
    InsertedIsThere(v.tree, p, Build(profile));
    InsertKeeps(v.tree, p, Build(profile), v.emulated.value);
    PassHas(InsertUnder(v.tree, p, Build(profile)), None, Emulated(v).name, v.pool, Inserted(p));
    PassHas(InsertUnder(v.tree, p, Build(profile)), None, Emulated(v).name, v.pool, AfterInsert(p, v.emulated.value));
  }

  lemma GrownKeeps(v: View, profile: Profile, p: Pos)
    requires Alive(v) && Has(v.tree, p)
    ensures var t := Grown(v, profile, p).tree;
            var e := AfterInsert(p, v.emulated.value);
            && At(t, Inserted(p)).kind == profile.kind && At(t, Inserted(p)).name == profile.name
            && At(t, e).name == Emulated(v).name && At(t, e).kind == Emulated(v).kind
  {
    var sub := Build(profile);
    var e := AfterInsert(p, v.emulated.value);
    InsertedIsThere(v.tree, p, sub);
    InsertKeeps(v.tree, p, sub, v.emulated.value);
    PassKeeps(InsertUnder(v.tree, p, sub), None, Emulated(v).name, v.pool, Inserted(p));
    PassKeeps(InsertUnder(v.tree, p, sub), None, Emulated(v).name, v.pool, e);
  }

  /** The emulated device is looked at only once the parent was found. */
  function AddDevice(v: View, profile: Profile, parent: string): (w: View)
    requires Mapped(v) && (Find(v.tree, parent).Some? ==> v.emulated.Some?)
  {
    match Find(v.tree, parent)
    case None => v
    case Some(p) =>
      if Rejects(v, p) then v
      else
        var a := Grown(v, profile, p);
        Notify(v.(tree := a.tree, pool := a.pool, emulated := Some(AfterInsert(p, v.emulated.value))),
               Report(At(a.tree, Inserted(p))))
  }

  /** The addresses below 15 that a map's devices hold. */
  function Held(t: Tree<Info>): (addresses: set<int>) {
    set a: int | 0 <= a < UNREGISTERED && Holders(t, a) > 0
  }

  /** Where the emulated device is once the k-th child of the root was removed. */
  function EmulatedAfterDrop(p: Option<Pos>, k: nat): (after: Option<Pos>) {
    match p
    case Some(Down(q)) => (match AfterDrop(k, q) case Some(r) => Some(Down(r)) case None => None)
    case _ => p
  }

  /** Any device may be named, but only a direct child of the root is removed. */
  function RemoveDevice(v: View, name: string): (w: View)
    requires Mapped(v)
  {
    if Find(v.tree, name).None? then v
    else
      match FirstNamed(v.tree.kids, name)
      case None => v
      case Some(k) =>
        v.(tree := v.tree.(kids := DropSibling(v.tree.kids, k)),
           emulated := EmulatedAfterDrop(v.emulated, k),
           retired := v.retired + Held(Sibling(v.tree.kids, k)))
  }

  /**
    Whether the handling of a message looks at the emulated device: adding to a known parent
    does, and so does the printing of anything but "Devices" and "Ports".
  */
  predicate NeedsEmulated(t: Tree<Info>, m: Message) {
    m.kind == StateType &&
    match m.payload
    case AddDeviceText(_, parent) => Find(t, parent).Some?
    case PrintText(status) => status != "Devices" && status != "Ports"
    case _ => false
  }

  function HandleState(v: View, text: Payload): (w: View)
    requires Mapped(v) && (NeedsEmulated(v.tree, Message(StateType, text)) ==> v.emulated.Some?)
  {
    match text
    case AddDeviceText(profile, parent) => AddDevice(v, profile, parent)
    case RemoveDeviceText(name) => RemoveDevice(v, name)
    case _ => v
  }

  /** One turn of the handler loop. */
  function Handle(v: View, m: Message): (w: View)
    requires Mapped(v) && (NeedsEmulated(v.tree, m) ==> v.emulated.Some?)
  {
    match m.kind
    case CommandType => Notify(v, Parse(v.tree, m.payload))
    case StateType => HandleState(v, m.payload)
    case _ => v
  }

  // ----- API calls -----

  function AddLogical(v: View, address: int): (View, Status)
    requires Alive(v)
  {
    if Emulated(v).kind != TV || address != 0 then (v, InvalidArgument)
    else (v.(tree := Put(v.tree, v.emulated.value, Emulated(v).(la := 0))), Success)
  }

  function RemoveLogical(v: View, address: int): (View, Status)
    requires Alive(v)
  {
    if Emulated(v).kind != TV || address != 0 then (v, InvalidArgument)
    else if Emulated(v).la == BROADCAST then (v, AlreadyRemoved)
    else (v.(tree := Put(v.tree, v.emulated.value, Emulated(v).(la := BROADCAST))), Success)
  }

  /** The status of a transmission with valid arguments. */
  function Tx(v: View): (status: Status)
    requires Alive(v)
  {
    if Emulated(v).kind == TV && Emulated(v).la == BROADCAST then SentFailed else Success
  }

  // ----- runs -----

  datatype Op = Add(address: int) | Remove(address: int) | SetCallback(on: bool) | Process(m: Message)

  /** Whether a step looks at the emulated device. */
  predicate Needs(t: Tree<Info>, op: Op) {
    match op
    case Add(_) => true
    case Remove(_) => true
    case SetCallback(_) => false
    case Process(m) => NeedsEmulated(t, m)
  }

  /** A step has a meaning unless it looks at the emulated device after that was freed. */
  predicate Defined(v: View, op: Op) {
    Mapped(v) && (Needs(v.tree, op) ==> v.emulated.Some?)
  }

  function Step(v: View, op: Op): (r: (View, Status))
    requires Defined(v, op)
    ensures Mapped(r.0)
  {
    StepMapped(v, op);
    match op
    case Add(address) => AddLogical(v, address)
    case Remove(address) => RemoveLogical(v, address)
    case SetCallback(on) => (v.(callback := on), Success)
    case Process(m) => (Handle(v, m), Success)
  }

  lemma StepMapped(v: View, op: Op)
    requires Defined(v, op)
    ensures op.Add? ==> Mapped(AddLogical(v, op.address).0)
    ensures op.Remove? ==> Mapped(RemoveLogical(v, op.address).0)
    ensures op.Process? ==> Mapped(Handle(v, op.m))
  {
    match op
    case Add(_) => PutHas(v.tree, v.emulated.value, Emulated(v).(la := 0));
    case Remove(_) => PutHas(v.tree, v.emulated.value, Emulated(v).(la := BROADCAST));
    case SetCallback(_) =>
    case Process(m) =>
      match (m.kind, m.payload) {
        case (StateType, RemoveDeviceText(name)) =>
          var k := FirstNamed(v.tree.kids, name);
          if k.Some? && v.emulated.Some? && v.emulated.value.Down? && AfterDrop(k.value, v.emulated.value.below).Some? {
            DropKeeps(v.tree.kids, k.value, v.emulated.value.below);
          }
        case _ =>
      }
  }

  /** No step of the run looks at the emulated device after that was freed. */
  predicate Safe(v: View, ops: seq<Op>)
    decreases ops
  {
    Mapped(v) && (ops == [] || (Defined(v, ops[0]) && Safe(Step(v, ops[0]).0, ops[1..])))
  }

  function Run(v: View, ops: seq<Op>): (r: View)
    requires Safe(v, ops)
    ensures Mapped(r)
    decreases ops
  {
    if ops == [] then v else Run(Step(v, ops[0]).0, ops[1..])
  }

  lemma {:induction false} SafeLast(v: View, ops: seq<Op>, op: Op)
    ensures Safe(v, ops + [op]) <==> Safe(v, ops) && Defined(Run(v, ops), op)
    ensures Safe(v, ops + [op]) ==> Run(v, ops + [op]) == Step(Run(v, ops), op).0
    decreases ops
  {
    if ops == [] {
      assert [] + [op] == [op];
    } else {
      assert (ops + [op])[1..] == ops[1..] + [op];
      if Defined(v, ops[0]) {
        SafeLast(Step(v, ops[0]).0, ops[1..], op);
      }
    }
  }

  function Messages(ms: seq<Message>): (ops: seq<Op>)
    ensures |ops| == |ms|
  {
    seq(|ms|, i requires 0 <= i < |ms| => Process(ms[i]))
  }

  lemma RunMessage(v: View, m: Message, ms: seq<Message>)
    requires Safe(v, Messages([m] + ms))
    ensures Defined(v, Process(m)) && Safe(Handle(v, m), Messages(ms))
    ensures Run(v, Messages([m] + ms)) == Run(Handle(v, m), Messages(ms))
  {
    assert Messages([m] + ms)[1..] == Messages(ms);
  }

  // ----- the handler loop -----

  /** What is still to be processed leads from `v` to where the whole drain led from `v0`. */
  ghost predicate OnTheWay(v: View, d: Drained, v0: View, d0: Drained)
    requires Safe(v0, Messages(d0.processed))
  {
    && d.exited == d0.exited && d.left == d0.left
    && Safe(v, Messages(d.processed))
    && Run(v, Messages(d.processed)) == Run(v0, Messages(d0.processed))
  }

  /** The same for a loop that may already have ended. */
  ghost predicate Reaches(v: View, ended: bool, q: seq<Message>, later: seq<seq<Message>>, v0: View, d0: Drained)
    requires Safe(v0, Messages(d0.processed))
  {
    if ended then d0.exited && q == d0.left && v == Run(v0, Messages(d0.processed))
    else OnTheWay(v, Drain(q, later), v0, d0)
  }

  /** A batch that arrives before a turn. */
  lemma ArrivedTurn(v: View, q: seq<Message>, left: seq<seq<Message>>, v0: View, d0: Drained)
    requires Safe(v0, Messages(d0.processed)) && OnTheWay(v, Drain(q, left), v0, d0)
    ensures var q' := if left == [] then q else OfferAll(q, left[0]);
            var later := if left == [] then [] else left[1..];
            if q' == [] then OnTheWay(v, Drain(q', later), v0, d0) else OnTheWay(v, Serve(q', later), v0, d0)
  {
  }

  /** Serving one message takes one step along. */
  lemma ServeOne(v: View, q: seq<Message>, later: seq<seq<Message>>, v0: View, d0: Drained)
    requires Safe(v0, Messages(d0.processed)) && q != []
    requires OnTheWay(v, Serve(q, later), v0, d0)
    ensures Defined(v, Process(q[0]))
    ensures Reaches(Handle(v, q[0]), q[0].kind == ExitRequested, q[1..], later, v0, d0)
  {
    if q[0].kind != ExitRequested {
      RunMessage(v, q[0], Drain(q[1..], later).processed);
    } else {
      assert [q[0]] + [] == [q[0]];
      RunMessage(v, q[0], []);
    }
  }
}
