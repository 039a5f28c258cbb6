/**
  The HAL object and the driver calls on it, updated in place. Every method is tied to the
  value model: the object's view after it is the model's function of the view before it.
*/
module HdmiCec {
  import opened Wrappers
  import opened LogicalAddress
  import opened Trees
  import opened Network
  import opened DeviceMap
  import opened Lookup
  import opened Command
  import opened MessageQueue
  import opened HalModel

  class Hal {
    const numPorts: nat
    const devicesMap: Device
    const emulatedDevice: Device
    const pool: AddressPool
    const queue: Queue
    const mem: Memory
    var rxCallback: bool
    var exitRequest: bool

    ghost var shape: Tree<Device>
    ghost var tree: Tree<Info>
    ghost var emulatedAt: Option<Pos>
    ghost var trace: seq<Rx>
    ghost var retired: set<int>

    /** The map has its ghost shape and contents, and holds the emulated device unless that was freed. */
    ghost predicate Intact()
      reads this, Nodes(shape)
    {
      && Represents(devicesMap, shape, tree)
      && (emulatedAt.Some? ==> Has(shape, emulatedAt.value) && At(shape, emulatedAt.value) == emulatedDevice)
    }

    /** Moreover the live records are exactly those of the map. */
    ghost predicate Valid()
      reads this, mem, queue, Nodes(shape)
    {
      pool.Valid() && queue.Valid() && Intact() && mem.live == Nodes(shape)
    }

    ghost function Now(): (v: View)
      requires pool.Valid()
      reads this, pool.taken
    {
      View(tree, emulatedAt, numPorts, pool.Slots(), rxCallback, trace, retired)
    }

    lemma AliveNow()
      requires pool.Valid() && Intact() && emulatedAt.Some?
      ensures Alive(Now()) && Emulated(Now()) == emulatedDevice.Record() && emulatedDevice in Nodes(shape)
    {
      assert Seen(shape);
      ContentsAt(shape, emulatedAt.value);
    }

    lemma MappedNow()
      requires pool.Valid() && Intact()
      ensures Mapped(Now())
    {
      assert Seen(shape);
      if emulatedAt.Some? {
        ContentsAt(shape, emulatedAt.value);
      }
    }

    constructor (c: Config, devicesMap: Device, emulatedDevice: Device, pool: AddressPool, mem: Memory,
                 ghost shape: Tree<Device>, ghost tree: Tree<Info>, ghost p: Pos)
      requires pool.Valid() && Represents(devicesMap, shape, tree) && mem.live == Nodes(shape)
      requires Has(shape, p) && At(shape, p) == emulatedDevice
      ensures Valid() && fresh(queue) && fresh(queue.slots) && queue.Contents() == [] && !exitRequest
      ensures this.shape == shape && this.pool == pool && this.mem == mem
      ensures Now() == View(tree, Some(p), c.numPorts, pool.Slots(), false, [], {})
    {
      assert allocated(Nodes(shape));
      numPorts := c.numPorts;
      this.devicesMap, this.emulatedDevice, this.pool, this.mem := devicesMap, emulatedDevice, pool, mem;
      queue := new Queue();
      rxCallback, exitRequest := false, false;
      this.shape, this.tree, emulatedAt, trace, retired := shape, tree, Some(p), [], {};
    }

    // ----- the emulated device's logical address -----

    method AddLogicalAddress(address: int) returns (status: Status)
      requires Valid() && emulatedAt.Some?
      modifies this`tree, Nodes(shape)
      ensures Valid() && old(Alive(Now())) && (Now(), status) == AddLogical(old(Now()), address)
    {
      AliveNow();
      assert allocated(Nodes(shape));
      if emulatedDevice.kind != TV || address != 0 {
        return InvalidArgument;
      }
      SetLogicalAddress(0);
      return Success;
    }

    method RemoveLogicalAddress(address: int) returns (status: Status)
      requires Valid() && emulatedAt.Some?
      modifies this`tree, Nodes(shape)
      ensures Valid() && old(Alive(Now())) && (Now(), status) == RemoveLogical(old(Now()), address)
    {
      AliveNow();
      assert allocated(Nodes(shape));
      if emulatedDevice.kind != TV || address != 0 {
        return InvalidArgument;
      }
      if emulatedDevice.la == BROADCAST {
        return AlreadyRemoved;
      }
      SetLogicalAddress(BROADCAST);
      return Success;
    }

    method SetLogicalAddress(la: Address)
      requires Valid() && emulatedAt.Some? && Alive(Now())
      modifies this`tree, Nodes(shape)
      ensures Valid()
      ensures Now() == old(Now()).(tree := Put(old(tree), old(Now()).emulated.value, Emulated(old(Now())).(la := la)))
    {
      AliveNow();
      assert allocated(Nodes(shape));
      SetAddresses(devicesMap, emulatedDevice, emulatedDevice.pa, la, shape, tree, emulatedAt.value);
      tree := Put(tree, emulatedAt.value, At(tree, emulatedAt.value).(la := la));
    }

    // ----- delivering frames -----

    /** Serialises a command into a 64-byte buffer and hands it to the callback, if one is set. */
    method Deliver(cmd: Record)
      requires cmd.Valid()
      modifies this`trace
      ensures trace == if rxCallback then old(trace) + [Delivered(cmd.Value())] else old(trace)
    {
      var data := new Byte[MAX_DATA_SIZE];
      var len := cmd.GetRawBytes(data, MAX_DATA_SIZE);
      if rxCallback {
        ghost var written := if len <= MAX_DATA_SIZE then data[..|Serialize(cmd.Value())|] else [];
        trace := trace + [Rx(written, len)];
      }
    }

    /** Announces a device. */
    method Announce(device: Device)
      modifies this`trace
      ensures trace == if rxCallback then old(trace) + [Delivered(Report(device.Record()))] else old(trace)
    {
      var cmd := new Record();
      cmd.Format(device.la, BROADCAST, REPORT_PHYSICAL_ADDRESS);
      var buf := new Byte[] [device.pa / 0x100 % 0x100, device.pa % 0x100];
      assert buf[..2] == AddressBytes(device.pa);
      cmd.PushBackArray(buf, 2);
      cmd.PushBackByte(TypeCode(device.kind));
      Deliver(cmd);
    }

    /** Builds the frame a command message asks for. */
    method ParseCommand(text: Payload, cmd: Record)
      requires Intact() && cmd.Valid()
      modifies cmd, cmd.parameterData
      ensures cmd.Valid() && cmd.Value() == Parse(tree, text)
    {
      assert allocated(Nodes(shape));
      cmd.Clear();
      var src, la, opcode := ResolveNames(text);
      if src != null {
        cmd.Format(src.la, la, opcode);
        FillParameters(src, text, opcode, cmd);
      }
    }

    /** Looks up the command's opcode, initiator and destination; no initiator if one of them is unknown. */
    method ResolveNames(text: Payload) returns (src: Device?, la: Address, opcode: Opcode)
      requires Intact()
      ensures src == null ==> Parse(tree, text) == CLEAR_FRAME
      ensures src != null ==>
                && text.CommandText?
                && Parse(tree, text) == Formatted(src.la, la, opcode).(params :=
                     Pushed([], [PushArray(Some(Parameters(opcode, src.Record(), text.osdName)))]))
    {
      assert allocated(Nodes(shape));
      src, la, opcode := null, BROADCAST, OPCODE_UNKNOWN;
      if text.CommandText? {
        opcode := GetOpCode(text.command);
        if opcode == OPCODE_UNKNOWN {
          return;
        }
        src := FindDevice(devicesMap, text.initiator, shape, tree);
        if src == null {
          return;
        }
        var dest := ResolveDestination(text.destination);
        if dest.None? {
          src := null;
        } else {
          la := dest.value;
        }
      }
    }

    method ResolveDestination(name: string) returns (la: Option<Address>)
      requires Intact()
      ensures la == DestinationOf(tree, name)
      ensures la == if name == "broadcast" then Some(15)
                    else match Find(tree, name) case Some(p) => Some(At(tree, p).la) case None => None
    {
      if name == BROADCAST_NAME {
        return Some(BROADCAST);
      }
      var dest := FindDevice(devicesMap, name, shape, tree);
      if dest == null {
        return None;
      }
      return Some(dest.la);
    }

    method FillParameters(src: Device, text: Payload, opcode: int, cmd: Record)
      requires text.CommandText? && cmd.Valid() && cmd.Value().params == []
      modifies cmd, cmd.parameterData
      ensures cmd.Valid()
      ensures cmd.Value() == old(cmd.Value()).(params :=
                Pushed([], [PushArray(Some(Parameters(opcode, src.Record(), text.osdName)))]))
    {
      ghost var operand := Parameters(opcode, src.Record(), text.osdName);
      PushedLast([], [], PushArray(Some(operand)));
      assert [] + [PushArray(Some(operand))] == [PushArray(Some(operand))];
      if opcode == ACTIVE_SOURCE || opcode == INACTIVE_SOURCE {
        var buf := new Byte[] [src.pa / 0x100 % 0x100, src.pa % 0x100];
        assert buf[..2] == operand;
        cmd.PushBackArray(buf, 2);
      } else if opcode == SET_OSD_NAME {
        var buf := new Byte[|text.osdName|](i requires 0 <= i < |text.osdName| => text.osdName[i]);
        assert buf[..|text.osdName|] == operand;
        cmd.PushBackArray(buf, |text.osdName|);
      }
    }

    // ----- state messages -----

    /** Creates the device, then turns it down or inserts, allocates and announces it. */
    method HandleAddDevice(profile: Profile, parentName: string)
      requires Valid() && (Find(tree, parentName).Some? ==> emulatedAt.Some?)
      modifies this`shape, this`tree, this`emulatedAt, this`trace, mem, pool.taken, Nodes(shape)
      ensures Valid() && fresh(Nodes(shape) - old(Nodes(shape)))
      ensures old(Mapped(Now())) && Now() == AddDevice(old(Now()), profile, parentName)
    {
      MappedNow();
      assert allocated(Nodes(shape));
      var device, sub := CreateMap(profile, mem);
      assert allocated(Nodes(sub));
      AddOrDiscard(device, profile, parentName, sub);
    }

    /** A new map that is not linked into the network yet. */
    ghost predicate Waiting(device: Device, sub: Tree<Device>, profile: Profile)
      reads this, mem, Nodes(sub)
    {
      Represents(device, sub, Build(profile)) && Nodes(shape) !! Nodes(sub) && mem.live == Nodes(shape) + Nodes(sub)
    }

    method AddOrDiscard(device: Device, profile: Profile, parentName: string, ghost sub: Tree<Device>)
      requires pool.Valid() && queue.Valid() && Intact() && Mapped(Now())
      requires Find(tree, parentName).Some? ==> emulatedAt.Some?
      requires Waiting(device, sub, profile)
      modifies this`shape, this`tree, this`emulatedAt, this`trace, mem, pool.taken, Nodes(shape), Nodes(sub)
      ensures Valid() && Nodes(shape) <= old(Nodes(shape)) + Nodes(sub)
      ensures Now() == AddDevice(old(Now()), profile, parentName)
    {
      assert allocated(Nodes(shape)) && allocated(Nodes(sub));
      var parent := FindDevice(devicesMap, parentName, shape, tree);
      if parent == null {
        Discard(device, sub, profile);
        return;
      }
      ghost var p := Find(tree, parentName).value;
      var full := PortsTaken(parent, p);
      if full {
        Discard(device, sub, profile);
      } else {
        Accept(parent, device, p, sub, profile);
      }
    }

    /** An accepted device is linked in, given addresses and announced. */
    method Accept(parent: Device, device: Device, ghost p: Pos, ghost sub: Tree<Device>, ghost profile: Profile)
      requires pool.Valid() && queue.Valid() && Intact() && emulatedAt.Some? && Alive(Now())
      requires Has(shape, p) && At(shape, p) == parent && Has(tree, p)
      requires Waiting(device, sub, profile)
      modifies this`shape, this`tree, this`emulatedAt, this`trace, pool.taken, Nodes(shape), Nodes(sub)
      ensures Valid() && Nodes(shape) == old(Nodes(shape)) + Nodes(sub)
      ensures var v, g := old(Now()), Grown(old(Now()), profile, p);
              Now() == Notify(v.(tree := g.tree, pool := g.pool, emulated := Some(AfterInsert(p, v.emulated.value))),
                              Report(At(g.tree, Inserted(p))))
    {
      PlaceDevice(parent, device, p, sub, profile);
      RecordAt(device, shape, tree, Inserted(p));
      Announce(device);
    }

    method Discard(device: Device, ghost sub: Tree<Device>, ghost profile: Profile)
      requires pool.Valid() && queue.Valid() && Intact() && Waiting(device, sub, profile)
      modifies mem
      ensures Valid()
    {
      FreeMap(device, mem, sub, Build(profile));
    }

    /** The check for a free port, made only for an emulated TV. */
    method PortsTaken(parent: Device, ghost p: Pos) returns (full: bool)
      requires pool.Valid() && Intact() && emulatedAt.Some? && Alive(Now())
      requires Has(shape, p) && At(shape, p) == parent
      ensures Has(tree, p) && (full <==> Rejects(Now(), p))
      ensures full <==> emulatedAt == Some(p) && At(tree, p).kind == TV && At(tree, p).numberChildren >= numPorts
    {
      assert Seen(shape);
      ContentsAt(shape, p);
      full := parent == emulatedDevice && parent.kind == TV && parent.numberChildren >= numPorts;
      if parent == emulatedDevice {
        PositionUnique(shape, p, emulatedAt.value);
      }
    }

    /** Inserts a new map under a record and allocates addresses over the whole map. */
    method PlaceDevice(parent: Device, device: Device, ghost p: Pos, ghost sub: Tree<Device>, ghost profile: Profile)
      requires pool.Valid() && queue.Valid() && Intact() && emulatedAt.Some? && Alive(Now())
      requires Has(shape, p) && At(shape, p) == parent && Has(tree, p)
      requires Waiting(device, sub, profile)
      modifies this`shape, this`tree, this`emulatedAt, pool.taken, Nodes(shape), Nodes(sub)
      ensures Valid() && Nodes(shape) == old(Nodes(shape)) + Nodes(sub)
      ensures Has(shape, Inserted(p)) && At(shape, Inserted(p)) == device
      ensures Allocation(tree, pool.Slots()) == Grown(old(Now()), profile, p)
      ensures emulatedAt == Some(AfterInsert(p, old(emulatedAt.value)))
    {
      AliveNow();
      assert sub.Node? && sub.val == device by {
        assert Seen(sub);
      }
      ghost var g, grown, e := Grown(Now(), profile, p), InsertUnder(shape, p, sub), AfterInsert(p, emulatedAt.value);
      assert Has(grown, e) && At(grown, e) == emulatedDevice && Has(grown, Inserted(p)) && At(grown, Inserted(p)) == device by {
        InsertKeeps(shape, p, sub, emulatedAt.value);
        InsertedIsThere(shape, p, sub);
      }
      InsertAndAllocate(devicesMap, parent, device, emulatedDevice, pool, shape, tree, p, sub, Build(profile));
      shape, tree, emulatedAt := grown, g.tree, Some(e);
    }

    lemma RecordAt(device: Device, f: Tree<Device>, t: Tree<Info>, p: Pos)
      requires Represents(devicesMap, f, t) && Has(f, p) && At(f, p) == device
      ensures Has(t, p) && device.Record() == At(t, p)
    {
      assert Seen(f);
      ContentsAt(f, p);
    }

    /** Looks the name up anywhere, then removes a direct child of the root with that name. */
    method HandleRemoveDevice(name: string)
      requires Valid()
      modifies this`shape, this`tree, this`emulatedAt, this`retired, mem, Nodes(shape)
      ensures Valid() && Nodes(shape) <= old(Nodes(shape))
      ensures old(Mapped(Now())) && Now() == RemoveDevice(old(Now()), name)
    {
      MappedNow();
      assert allocated(Nodes(shape));
      var device := FindDevice(devicesMap, name, shape, tree);
      if device == null {
        return;
      }
      RemoveNamed(name);
    }

    method RemoveNamed(name: string)
      requires Valid() && Mapped(Now()) && Find(tree, name).Some?
      modifies this`shape, this`tree, this`emulatedAt, this`retired, mem, Nodes(shape)
      ensures Valid() && Nodes(shape) <= old(Nodes(shape))
      ensures Now() == RemoveDevice(old(Now()), name)
    {
      ghost var f, e, k := shape, emulatedAt, FirstNamed(tree.kids, name);
      assert allocated(Nodes(shape));
      shape := RemoveFromRoot(devicesMap, name, mem, f, tree);
      if k.Some? {
        retired := retired + Held(Sibling(tree.kids, k.value));
        tree := tree.(kids := DropSibling(tree.kids, k.value));
        emulatedAt := EmulatedAfterDrop(e, k.value);
        EmulatedStays(f, e, k.value);
      }
    }

    lemma EmulatedStays(f: Tree<Device>, e: Option<Pos>, k: nat)
      requires f.Node? && f.rest.Nil? && k < Siblings(f.kids) && (e.Some? ==> Has(f, e.value))
      ensures var g, e' := f.(kids := DropSibling(f.kids, k)), EmulatedAfterDrop(e, k);
              e'.Some? ==> e.Some? && Has(g, e'.value) && At(g, e'.value) == At(f, e.value)
    {
      if e.Some? && e.value.Down? && AfterDrop(k, e.value.below).Some? {
        DropKeeps(f.kids, k, e.value.below);
      }
    }

    // ----- the handler loop -----

    method HandleCommandMessage(text: Payload)
      requires Valid()
      modifies this`trace
      ensures Valid()
      ensures trace == if rxCallback then old(trace) + [Delivered(Parse(tree, text))] else old(trace)
    {
      assert allocated(Nodes(shape));
      var cmd := new Record();
      ParseCommand(text, cmd);
      Deliver(cmd);
      assert Intact();
    }

    /** One turn of the loop. */
    method HandleMessage(m: Message)
      requires Valid() && (NeedsEmulated(tree, m) ==> emulatedAt.Some?)
      modifies this`exitRequest, this`shape, this`tree, this`emulatedAt, this`trace, this`retired,
               mem, pool.taken, Nodes(shape)
      ensures Valid() && fresh(Nodes(shape) - old(Nodes(shape)))
      ensures old(Mapped(Now())) && Now() == Handle(old(Now()), m)
      ensures exitRequest == (old(exitRequest) || m.kind == ExitRequested)
    {
      MappedNow();
      match m.kind
      case ExitRequested => exitRequest := true;
      case CommandType => HandleCommandMessage(m.payload);
      case StateType => HandleStateMessages(m.payload);
      case _ =>
    }

    method HandleStateMessages(text: Payload)
      requires Valid() && (NeedsEmulated(tree, Message(StateType, text)) ==> emulatedAt.Some?)
      modifies this`shape, this`tree, this`emulatedAt, this`trace, this`retired, mem, pool.taken, Nodes(shape)
      ensures Valid() && fresh(Nodes(shape) - old(Nodes(shape)))
      ensures old(Mapped(Now())) && Now() == HandleState(old(Now()), text)
    {
      MappedNow();
      match text
      case AddDeviceText(profile, parent) => HandleAddDevice(profile, parent);
      case RemoveDeviceText(name) => HandleRemoveDevice(name);
      case _ =>
    }

    /**
      Runs until an exit request, or until it would wait for good on an empty queue. Batch i
      of the arrivals is enqueued by the producers just before turn i. No message processed
      may look at the emulated device once an earlier one has freed it.
    */
    method MessageHandler(arrivals: seq<seq<Message>>)
      requires Valid() && !exitRequest
      requires Safe(Now(), Messages(Drain(queue.Contents(), arrivals).processed))
      modifies this, mem, pool.taken, queue`count, queue.slots, Nodes(shape)
      ensures Valid() && fresh(Nodes(shape) - old(Nodes(shape)))
      ensures var d := Drain(old(queue.Contents()), arrivals);
              && exitRequest == d.exited && queue.Contents() == d.left
              && Now() == Run(old(Now()), Messages(d.processed))
    {
      ghost var d0, v0 := Drain(queue.Contents(), arrivals), Now();
      assert allocated(Nodes(shape));
      var i := 0;
      while !exitRequest && (i < |arrivals| || queue.count > 0)
        invariant 0 <= i <= |arrivals|
        invariant Valid() && fresh(Nodes(shape) - old(Nodes(shape)))
        invariant Reaches(Now(), exitRequest, queue.Contents(), arrivals[i..], v0, d0)
        decreases |arrivals| - i, queue.count
      {
        i := OneTurn(arrivals, i, v0, d0);
      }
    }

    /** One turn of the loop: the producers' batch, then a message if there is one. */
    method OneTurn(arrivals: seq<seq<Message>>, i: nat, ghost v0: View, ghost d0: Drained) returns (next: nat)
      requires Valid() && !exitRequest && i <= |arrivals| && (i < |arrivals| || 0 < queue.count)
      requires Safe(v0, Messages(d0.processed))
      requires Reaches(Now(), false, queue.Contents(), arrivals[i..], v0, d0)
      modifies this, mem, pool.taken, queue`count, queue.slots, Nodes(shape)
      ensures Valid() && fresh(Nodes(shape) - old(Nodes(shape)))
      ensures i <= next <= |arrivals| && (next == i ==> queue.count < old(queue.count))
      ensures Reaches(Now(), exitRequest, queue.Contents(), arrivals[next..], v0, d0)
    {
      ghost var q, left := queue.Contents(), arrivals[i..];
      assert allocated(Nodes(shape));
      next := i;
      if i < |arrivals| {
        Arrive(arrivals[i]);
        next := i + 1;
        assert left[1..] == arrivals[next..];
      }
      ArrivedTurn(Now(), q, left, v0, d0);
      if queue.count > 0 {
        TakeTurn(arrivals[next..], v0, d0);
      }
    }

    /** The turn proper: takes a message and handles it. */
    method TakeTurn(ghost later: seq<seq<Message>>, ghost v0: View, ghost d0: Drained)
      requires Valid() && !exitRequest && 0 < queue.count
      requires Safe(v0, Messages(d0.processed)) && OnTheWay(Now(), Serve(queue.Contents(), later), v0, d0)
      modifies this, mem, pool.taken, queue`count, queue.slots, Nodes(shape)
      ensures Valid() && fresh(Nodes(shape) - old(Nodes(shape)))
      ensures queue.count < old(queue.count)
      ensures Reaches(Now(), exitRequest, queue.Contents(), later, v0, d0)
    {
      assert allocated(Nodes(shape));
      ServeOne(Now(), queue.Contents(), later, v0, d0);
      var m := queue.Dequeue();
      HandleMessage(m);
    }

    method Arrive(ms: seq<Message>)
      requires Valid()
      modifies queue`count, queue.slots
      ensures Valid() && queue.Contents() == OfferAll(old(queue.Contents()), ms)
    {
      assert allocated(Nodes(shape));
      queue.EnqueueAll(ms);
    }
  }
}
