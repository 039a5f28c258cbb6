/**
  The virtual component and the driver calls: at most one open HAL, opened from a profile
  and closed by stopping its handler and freeing its map.
*/
module Driver {
  import opened Wrappers
  import opened LogicalAddress
  import opened PhysicalAddress
  import opened Trees
  import opened Network
  import opened DeviceMap
  import opened Lookup
  import opened Command
  import opened MessageQueue
  import opened HalModel
  import opened HdmiCec

  class VirtualComponent {
    const config: Config
    const mem: Memory
    var hal: Hal?

    ghost function Footprint(): (objects: set<object>)
      reads this, hal
    {
      if hal == null then {mem} else {mem, hal, hal.queue, hal.queue.slots, hal.pool.taken} + Nodes(hal.shape)
    }

    /** While no HAL is open, no record is live; while one is, its handler has not been told to exit. */
    ghost predicate Valid()
      reads this, hal, Footprint()
    {
      if hal == null then mem.live == {}
      else
        && hal.mem == mem && hal.Valid()
        && !hal.exitRequest && NoExit(hal.queue.Contents())
    }

    constructor (c: Config)
      ensures Valid() && hal == null && config == c
    {
      config := c;
      mem := new Memory();
      hal := null;
    }

    // ----- opening -----

    method HdmiCecOpen(handleGiven: bool) returns (status: Status)
      requires Valid()
      modifies this, mem
      ensures Valid()
      ensures !handleGiven ==> status == InvalidHandle && hal == old(hal)
      ensures handleGiven && old(hal) != null ==> status == AlreadyOpen && hal == old(hal)
      ensures handleGiven && old(hal) == null ==>
                match Opened(config)
                case None => status == GeneralError && hal == null
                case Some(v) => status == Success && hal != null && fresh(hal) && hal.Now() == v && hal.queue.Contents() == []
    {
      if !handleGiven {
        return InvalidHandle;
      }
      if hal != null {
        return AlreadyOpen;
      }
      var map_, f := CreateMap(config.profile, mem);
      var emulated := FindDevice(map_, config.emulated, f, Build(config.profile));
      if emulated == null {
        FreeMap(map_, mem, f, Build(config.profile));
        return GeneralError;
      }
      var h := Discover(map_, emulated, f);
      hal := h;
      return Success;
    }

    /** Gives every device its addresses and sets up the HAL around the map. */
    method Discover(map_: Device, emulated: Device, ghost f: Tree<Device>) returns (h: Hal)
      requires Represents(map_, f, Build(config.profile)) && mem.live == Nodes(f)
      requires Find(Build(config.profile), config.emulated).Some?
      requires Has(f, Find(Build(config.profile), config.emulated).value)
      requires At(f, Find(Build(config.profile), config.emulated).value) == emulated
      requires emulated.name == config.emulated
      modifies Nodes(f)
      ensures fresh(h) && fresh(h.queue) && fresh(h.queue.slots) && fresh(h.pool.taken) && h.shape == f && h.mem == mem
      ensures h.Valid() && !h.exitRequest && h.queue.Contents() == []
      ensures Opened(config) == Some(h.Now())
    {
      ghost var p := Find(Build(config.profile), config.emulated).value;
      assert allocated(Nodes(f));
      var pool := new AddressPool();
      pool.Init();
      AllocateMap(map_, emulated, pool, f, Build(config.profile));
      ghost var first := FirstPass(config, p);
      ClaimAddresses(map_, emulated, f, first.tree, p);
      h := new Hal(config, map_, emulated, pool, mem, f, AsEmulated(first.tree, p), p);
    }

    /** An emulated TV is put at physical address 0 without a logical address. */
    method ClaimAddresses(map_: Device, emulated: Device, ghost f: Tree<Device>, ghost t: Tree<Info>, ghost p: Pos)
      requires Represents(map_, f, t) && Has(f, p) && At(f, p) == emulated
      modifies Nodes(f)
      ensures Has(t, p) && Represents(map_, f, AsEmulated(t, p))
    {
      assert allocated(Nodes(f));
      assert Has(t, p) && At(t, p).kind == emulated.kind && emulated in Nodes(f) by {
        assert Seen(f);
        ContentsAt(f, p);
      }
      if emulated.kind == TV {
        SetAddresses(map_, emulated, 0, BROADCAST, f, t, p);
      }
    }

    // ----- messages from the control plane -----

    /** Queues a message of a known type, if the HAL is open. */
    method ProcessMsg(key: string, text: Payload)
      requires Valid()
      modifies if hal == null then {} else {hal.queue, hal.queue.slots}
      ensures Valid() && hal == old(hal)
      ensures hal != null ==>
                && hal.Now() == old(hal.Now())
                && hal.queue.Contents() ==
                   if TypeOfKey(key) == NoneType then old(hal.queue.Contents())
                   else Offer(old(hal.queue.Contents()), Message(TypeOfKey(key), text))
    {
      if hal == null {
        return;
      }
      assert allocated(Nodes(hal.shape));
      var kind := GetValue(KEYS, key, NoneType);
      if kind == NoneType {
        return;
      }
      hal.queue.Enqueue(Message(kind, text));
    }

    // ----- handling them -----

    /** One turn of the handler while the HAL is open: takes the first message and handles it. */
    method HandlerTurn()
      requires Valid() && hal != null && hal.queue.Contents() != []
      requires NeedsEmulated(hal.tree, hal.queue.Contents()[0]) ==> hal.emulatedAt.Some?
      modifies Footprint()
      ensures Valid() && hal == old(hal)
      ensures hal.queue.Contents() == old(hal.queue.Contents())[1..]
      ensures old(Mapped(hal.Now())) && hal.Now() == Handle(old(hal.Now()), old(hal.queue.Contents())[0])
    {
      hal.MappedNow();
      assert allocated(Nodes(hal.shape));
      ghost var q := hal.queue.Contents();
      var m := hal.queue.Dequeue();
      assert forall i :: 0 <= i < |hal.queue.Contents()| ==> hal.queue.Contents()[i] == q[i + 1];
      hal.HandleMessage(m);
    }

    // ----- closing -----

    /** What the handler processes once it was asked to exit. */
    static function Closing(q: seq<Message>, arrivals: seq<seq<Message>>): (processed: seq<Message>) {
      Drain(Offer(q, EXIT_MESSAGE), arrivals).processed
    }

    /**
      Asks the handler to exit, waits for it, and frees the map. The wait never ends, and
      nothing is returned, when the queue was full and the request dropped. None of the
      messages still processed may look at the emulated device once an earlier one has freed
      it, which `SafeIff` and `EmulatedEnduresIff` decide from the messages.
    */
    method HdmiCecClose(handle: int, arrivals: seq<seq<Message>>) returns (status: Option<Status>)
      requires Valid()
      requires forall i :: 0 <= i < |arrivals| ==> NoExit(arrivals[i])
      requires hal != null && handle != 0 ==>
                 Safe(hal.Now(), Messages(Closing(hal.queue.Contents(), arrivals)))
      modifies this, Footprint()
      ensures old(hal) == null ==> status == Some(NotOpened) && hal == null
      ensures old(hal) != null && handle == 0 ==> status == Some(InvalidHandle) && hal == old(hal)
      ensures old(hal) != null && handle != 0 ==>
                && (status == Some(Success) <==> old(|hal.queue.Contents()|) < MAX_QUEUE_SIZE)
                && (status == Some(Success) ==>
                      && hal == null && mem.live == {} && Valid()
                      && Closing(old(hal.queue.Contents()), arrivals) == old(hal.queue.Contents()) + [EXIT_MESSAGE]
                      && old(hal).trace == Run(old(hal.Now()), Messages(Closing(old(hal.queue.Contents()), arrivals))).trace)
                && (status != Some(Success) ==> status == None && hal == old(hal))
    {
      if hal == null {
        return Some(NotOpened);
      }
      if handle == 0 {
        return Some(InvalidHandle);
      }
      ShutdownEnds(hal.queue.Contents(), arrivals);
      assert allocated(Nodes(hal.shape));
      hal.queue.Enqueue(EXIT_MESSAGE);
      hal.MessageHandler(arrivals);
      if !hal.exitRequest {
        return None;
      }
      FreeMap(hal.devicesMap, mem, hal.shape, hal.tree);
      hal := null;
      return Some(Success);
    }

    // ----- driver calls -----

    method HdmiCecAddLogicalAddress(handle: int, address: int) returns (status: Status)
      requires Valid() && (hal != null && handle != 0 ==> hal.emulatedAt.Some?)
      modifies if hal == null then {} else {hal} + Nodes(hal.shape)
      ensures Valid() && hal == old(hal)
      ensures hal == null ==> status == NotOpened
      ensures hal != null && handle == 0 ==> status == InvalidHandle && hal.Now() == old(hal.Now())
      ensures hal != null && handle != 0 ==> old(Alive(hal.Now())) && (hal.Now(), status) == AddLogical(old(hal.Now()), address)
    {
      if hal == null {
        return NotOpened;
      }
      if handle == 0 {
        return InvalidHandle;
      }
      status := hal.AddLogicalAddress(address);
    }

    method HdmiCecRemoveLogicalAddress(handle: int, address: int) returns (status: Status)
      requires Valid() && (hal != null && handle != 0 ==> hal.emulatedAt.Some?)
      modifies if hal == null then {} else {hal} + Nodes(hal.shape)
      ensures Valid() && hal == old(hal)
      ensures hal == null ==> status == NotOpened
      ensures hal != null && handle == 0 ==> status == InvalidHandle && hal.Now() == old(hal.Now())
      ensures hal != null && handle != 0 ==> old(Alive(hal.Now())) && (hal.Now(), status) == RemoveLogical(old(hal.Now()), address)
    {
      if hal == null {
        return NotOpened;
      }
      if handle == 0 {
        return InvalidHandle;
      }
      status := hal.RemoveLogicalAddress(address);
    }

    /** Both addresses of the emulated device are read the same way. */
    method HdmiCecGetAddresses(handle: int, outGiven: bool) returns (status: Status, la: Address, pa: Word)
      requires Valid() && (hal != null && handle != 0 && outGiven ==> hal.emulatedAt.Some?)
      ensures hal == null ==> status == NotOpened
      ensures hal != null && handle == 0 ==> status == InvalidHandle
      ensures hal != null && handle != 0 && !outGiven ==> status == InvalidArgument
      ensures hal != null && handle != 0 && outGiven ==>
                && status == Success && Alive(hal.Now())
                && la == Emulated(hal.Now()).la && pa == Emulated(hal.Now()).pa
    {
      la, pa := UNKNOWN, 0;
      if hal == null {
        return NotOpened, la, pa;
      }
      if handle == 0 {
        return InvalidHandle, la, pa;
      }
      if !outGiven {
        return InvalidArgument, la, pa;
      }
      hal.AliveNow();
      return Success, hal.emulatedDevice.la, hal.emulatedDevice.pa;
    }

    method HdmiCecSetRxCallback(handle: int, on: bool) returns (status: Status)
      requires Valid()
      modifies if hal == null then {} else {hal}
      ensures Valid() && hal == old(hal)
      ensures hal == null ==> status == NotOpened
      ensures hal != null && handle == 0 ==> status == InvalidHandle && hal.Now() == old(hal.Now())
      ensures hal != null && handle != 0 ==> status == Success && hal.Now() == old(hal.Now()).(callback := on)
    {
      if hal == null {
        return NotOpened;
      }
      if handle == 0 {
        return InvalidHandle;
      }
      assert allocated(Nodes(hal.shape));
      hal.rxCallback := on;
      return Success;
    }

    /** With valid arguments the status is the model's; the result is stored on success only. */
    method HdmiCecTx(handle: int, buf: array?<Byte>, len: int, resultGiven: bool)
      returns (status: Status, result: Option<Status>)
      requires Valid()
      requires hal != null && handle != 0 && buf != null && 0 < len && resultGiven ==> hal.emulatedAt.Some?
      ensures hal == null ==> status == NotOpened
      ensures hal != null && handle == 0 ==> status == InvalidHandle
      ensures hal != null && handle != 0 && (buf == null || len <= 0 || !resultGiven) ==> status == InvalidArgument
      ensures hal != null && handle != 0 && buf != null && 0 < len && resultGiven ==>
                Alive(hal.Now()) && status == Tx(hal.Now())
      ensures result == if status == Success then Some(SentNotAcked) else None
    {
      if hal == null {
        return NotOpened, None;
      }
      if handle == 0 {
        return InvalidHandle, None;
      }
      if buf == null || len <= 0 || !resultGiven {
        return InvalidArgument, None;
      }
      hal.AliveNow();
      if hal.emulatedDevice.kind == TV && hal.emulatedDevice.la == BROADCAST {
        return SentFailed, None;
      }
      return Success, Some(SentNotAcked);
    }
  }
}
