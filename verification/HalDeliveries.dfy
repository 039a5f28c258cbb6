/** The trace of every run: what is delivered by which step, and in which order. */
module HalDeliveries {
  import opened Wrappers
  import opened LogicalAddress
  import opened PhysicalAddress
  import opened Trees
  import opened Network
  import opened Lookup
  import opened Command
  import opened MessageQueue
  import opened HalModel
  import opened HalFrames

  /**
    A command message delivers exactly one frame, the one the message asks for, if a callback
    is set; it changes nothing else, and nothing at all without a callback.
  */
  lemma CommandStep(v: View, text: Payload)
    requires Mapped(v)
    ensures var w := Step(v, Process(Message(CommandType, text))).0;
            && (v.callback ==> exists rx :: w == v.(trace := v.trace + [rx]) && Carries(rx, v.tree, text))
            && (!v.callback ==> w == v)
  {
    CommandCarried(v, text);
    var rx := Delivered(Parse(v.tree, text));
    assert v.callback ==> Step(v, Process(Message(CommandType, text))).0 == v.(trace := v.trace + [rx]);
  }

  /** Byte by byte, between devices that have logical addresses. */
  lemma CommandBytes(v: View, text: Payload, d: Info, la: Address, operand: seq<Byte>)
    requires Mapped(v) && v.callback && Known(v.tree, text) && !OverlongName(text)
    requires d == At(v.tree, Find(v.tree, text.initiator).value) && d.la != -1 && la != -1
    requires la == if text.destination == "broadcast" then 15 else At(v.tree, Find(v.tree, text.destination).value).la
    requires operand == (if OpcodeOf(text.command) in {0x82, 0x9D} then [d.pa / 0x100, d.pa % 0x100]
                         else if OpcodeOf(text.command) == 0x47 && |text.osdName| <= 64 then text.osdName
                         else [])
    ensures Step(v, Process(Message(CommandType, text))).0 ==
            v.(trace := v.trace + [Rx([16 * d.la + la, OpcodeOf(text.command)] + operand, 2 + |operand|)])
  {
    CommandStep(v, text);
    var rx :| Step(v, Process(Message(CommandType, text))).0 == v.(trace := v.trace + [rx]) && Carries(rx, v.tree, text);
    CarriedBytes(rx, v.tree, text, d, la, operand);
  }

  lemma CarriedBytes(rx: Rx, t: Tree<Info>, text: Payload, d: Info, la: Address, operand: seq<Byte>)
    requires Carries(rx, t, text) && Known(t, text) && !OverlongName(text)
    requires d == At(t, Find(t, text.initiator).value) && d.la != -1 && la != -1
    requires la == if text.destination == "broadcast" then 15 else At(t, Find(t, text.destination).value).la
    requires operand == (if OpcodeOf(text.command) in {0x82, 0x9D} then [d.pa / 0x100, d.pa % 0x100]
                         else if OpcodeOf(text.command) == 0x47 && |text.osdName| <= 64 then text.osdName
                         else [])
    ensures rx == Rx([16 * d.la + la, OpcodeOf(text.command)] + operand, 2 + |operand|)
  {
    DecodedBytes(rx.bytes, d.la, la, OpcodeOf(text.command), operand);
  }

  /** The bytes a decoded frame was. */
  lemma DecodedBytes(bytes: seq<Byte>, initiator: Address, destination: Address, opcode: Byte, params: seq<Byte>)
    requires Decode(bytes) == Some(Frame(initiator, destination, Some(opcode), params))
    ensures bytes == [16 * initiator + destination, opcode] + params
  {
    assert bytes == [bytes[0], bytes[1]] + bytes[2..];
    assert bytes[0] == 16 * (bytes[0] / 16 % 16) + bytes[0] % 16;
  }

  /** Event, config, exit and untyped messages change nothing, and neither do state messages that add or remove no device. */
  lemma IdleStep(v: View, m: Message)
    requires Defined(v, Process(m))
    requires m.kind == CommandType || m.kind == StateType ==>
               m.kind == StateType && !m.payload.AddDeviceText? && !m.payload.RemoveDeviceText?
    ensures Step(v, Process(m)).0 == v
  {
  }

  /**
    Once the emulated device was freed, exactly these steps still have a meaning: setting the
    callback, and messages other than an AddDevice with a known parent or the printing of
    anything but devices or ports.
  */
  lemma DefinedAfterFree(v: View, op: Op)
    requires Mapped(v) && v.emulated.None?
    ensures Defined(v, op) <==>
            match op
            case Add(_) => false
            case Remove(_) => false
            case SetCallback(_) => true
            case Process(m) =>
              m.kind != StateType ||
              (if m.payload.AddDeviceText? then Find(v.tree, m.payload.parent).None?
               else m.payload.PrintText? ==> m.payload.status == "Devices" || m.payload.status == "Ports")
  {
  }

  // ----- what a step delivers -----

  /** A state message whose device is taken by its parent. */
  predicate TakesDevice(v: View, op: Op)
    requires Mapped(v)
  {
    && op.Process? && op.m.kind == StateType && op.m.payload.AddDeviceText?
    && var p := Find(v.tree, op.m.payload.parent);
       p.Some? && !(v.emulated == p && At(v.tree, p.value).kind == TV && At(v.tree, p.value).numberChildren >= v.numPorts)
  }

  /** The device that was added at the parent, once it was. */
  ghost predicate AnnouncesNew(rx: Rx, v: View, w: View, op: Op)
    requires Mapped(v) && TakesDevice(v, op)
  {
    var at := Inserted(Find(v.tree, op.m.payload.parent).value);
    Has(w.tree, at) && At(w.tree, at).name == op.m.payload.profile.name && Announces(rx, At(w.tree, at))
  }

  /** With a callback, one frame for a command and one for an accepted device; otherwise none. */
  ghost predicate Emits(v: View, op: Op, rxs: seq<Rx>)
    requires Defined(v, op)
  {
    if v.callback && op.Process? && op.m.kind == CommandType then
      |rxs| == 1 && Carries(rxs[0], v.tree, op.m.payload)
    else if v.callback && TakesDevice(v, op) then
      |rxs| == 1 && AnnouncesNew(rxs[0], v, Step(v, op).0, op)
    else rxs == []
  }

  lemma StepEmits(v: View, op: Op) returns (rxs: seq<Rx>)
    requires Defined(v, op)
    ensures Step(v, op).0.trace == v.trace + rxs && Emits(v, op, rxs)
  {
    rxs := [];
    if op.Process? && op.m.kind == CommandType {
      if v.callback {
        CommandStep(v, op.m.payload);
        var rx :| Step(v, op).0 == v.(trace := v.trace + [rx]) && Carries(rx, v.tree, op.m.payload);
        rxs := [rx];
      }
    } else if TakesDevice(v, op) {
      rxs := TakenEmits(v, op);
    } else if op.Process? && op.m.kind == StateType && op.m.payload.AddDeviceText? {
      AddStepIs(v, op.m.payload.profile, op.m.payload.parent);
    }
  }

  lemma TakenEmits(v: View, op: Op) returns (rxs: seq<Rx>)
    requires Defined(v, op) && TakesDevice(v, op)
    ensures Step(v, op).0.trace == v.trace + rxs
    ensures if v.callback then |rxs| == 1 && AnnouncesNew(rxs[0], v, Step(v, op).0, op) else rxs == []
  {
    var profile, parent := op.m.payload.profile, op.m.payload.parent;
    var p := Find(v.tree, parent).value;
    AddStepIs(v, profile, parent);
    assert op == AddOp(profile, parent);
    rxs := [];
    if v.callback {
      var t := Grown(v, profile, p).tree;
      GrownKeeps(v, profile, p);
      GrownAssigned(v, profile, p);
      ReportAnnounces(At(t, Inserted(p)));
      rxs := [Delivered(Report(At(t, Inserted(p))))];
    }
  }

  /** A device just added always has a logical address. */
  lemma GrownAssigned(v: View, profile: Profile, p: Pos)
    requires Alive(v) && Has(v.tree, p)
    ensures At(Grown(v, profile, p).tree, Inserted(p)).la != UNKNOWN
  {
    var grown := InsertUnder(v.tree, p, Build(profile));
    PassReaches(grown, Emulated(v).name, v.pool, Inserted(p));
    match p
    case Here => AssignedAt(Grown(v, profile, p).tree.kids, Here);
    case Down(q) => AssignedAt(Grown(v, profile, p).tree.kids, Inserted(q));
    case Across(_) =>
  }

  lemma {:induction false} AssignedAt(t: Tree<Info>, q: Pos)
    requires Assigned(t) && Has(t, q)
    ensures At(t, q).la != UNKNOWN
  {
    match q
    case Here =>
    case Down(r) => AssignedAt(t.kids, r);
    case Across(r) => AssignedAt(t.rest, r);
  }

  // ----- what a run delivers -----

  function Concat(rxss: seq<seq<Rx>>): (rxs: seq<Rx>) {
    if rxss == [] then [] else Concat(rxss[..|rxss| - 1]) + rxss[|rxss| - 1]
  }

  /**
    The trace of a run is what its steps deliver, one after the other: while a callback is
    set, one frame per command message and one per accepted AddDevice, in order.
  */
  lemma {:induction false} RunEmits(v: View, ops: seq<Op>) returns (rxss: seq<seq<Rx>>)
    requires Safe(v, ops)
    ensures |rxss| == |ops| && Run(v, ops).trace == v.trace + Concat(rxss)
    ensures forall n :: 0 <= n < |ops| ==> Safe(v, ops[..n]) && Defined(Run(v, ops[..n]), ops[n])
                                           && Emits(Run(v, ops[..n]), ops[n], rxss[n])
    decreases |ops|
  {
    if ops == [] {
      rxss := [];
    } else {
      var last := |ops| - 1;
      var init := ops[..last];
      assert ops == init + [ops[last]];
      SafeLast(v, init, ops[last]);
      var before := RunEmits(v, init);
      var rxs := StepEmits(Run(v, init), ops[last]);
      rxss := before + [rxs];
      assert rxss[..last] == before;
      forall n | 0 <= n < |ops|
        ensures Safe(v, ops[..n]) && Defined(Run(v, ops[..n]), ops[n]) && Emits(Run(v, ops[..n]), ops[n], rxss[n])
      {
        if n < last {
          assert ops[..n] == init[..n] && ops[n] == init[n];
        }
      }
    }
  }

  /** A callback stays as it is set until it is set otherwise. */
  lemma {:induction false} CallbackStays(v: View, ops: seq<Op>)
    requires Safe(v, ops) && forall i :: 0 <= i < |ops| && ops[i].SetCallback? ==> ops[i].on == v.callback
    ensures Run(v, ops).callback == v.callback
    decreases ops
  {
    if ops != [] {
      var rest := ops[1..];
      assert forall i :: 0 <= i < |rest| ==> rest[i] == ops[i + 1];
      assert Step(v, ops[0]).0.callback == v.callback;
      CallbackStays(Step(v, ops[0]).0, rest);
    }
  }
}
