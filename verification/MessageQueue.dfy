/** Control-plane messages and the 32-slot queue they wait in. */
module MessageQueue {
  import opened Command
  import opened Network
  import opened Lookup

  /** The text of a message, as it reads once parsed. */
  datatype Payload =
    | NoPayload
    | CommandText(command: string, initiator: string, destination: string, osdName: seq<Byte>)
    | AddDeviceText(profile: Profile, parent: string)
    | RemoveDeviceText(name: string)
    | PrintText(status: string)
    | OtherStateText

  datatype MsgType = NoneType | CommandType | EventType | ConfigType | StateType | ExitRequested

  datatype Message = Message(kind: MsgType, payload: Payload)

  const RESET_MESSAGE := Message(NoneType, NoPayload)
  const EXIT_MESSAGE := Message(ExitRequested, NoPayload)

  const KEYS: seq<StrVal<MsgType>> := [
    StrVal("hdmicec/command", CommandType),
    StrVal("hdmicec/config", ConfigType),
    StrVal("hdmicec/event", EventType),
    StrVal("hdmicec/state", StateType)
  ]

  /** The message type a control-plane key stands for; no key stands for an exit request. */
  function TypeOfKey(key: string): (kind: MsgType)
    ensures kind != ExitRequested
  {
    ValueIsListed(KEYS, key, NoneType);
    ValueOf(KEYS, key, NoneType)
  }

  lemma KeyTypes(key: string)
    ensures TypeOfKey(key) ==
            if key == "hdmicec/command" then CommandType
            else if key == "hdmicec/config" then ConfigType
            else if key == "hdmicec/event" then EventType
            else if key == "hdmicec/state" then StateType
            else NoneType
  {
    var last := [KEYS[3]];
    var later := [KEYS[2]] + last;
    var rest := [KEYS[1]] + later;
    assert KEYS[1..] == rest && rest[1..] == later && later[1..] == last && last[1..] == [];
    assert ValueOf(last, key, NoneType) == if key == "hdmicec/state" then StateType else NoneType;
    assert ValueOf(later, key, NoneType) == if key == "hdmicec/event" then EventType else ValueOf(last, key, NoneType);
    assert ValueOf(rest, key, NoneType) == if key == "hdmicec/config" then ConfigType else ValueOf(later, key, NoneType);
  }

  const MAX_QUEUE_SIZE := 32

  /** A bounded FIFO: a message is dropped only when 32 are pending. */
  function Offer(q: seq<Message>, m: Message): (after: seq<Message>) {
    if |q| < MAX_QUEUE_SIZE then q + [m] else q
  }

  function OfferAll(q: seq<Message>, ms: seq<Message>): (after: seq<Message>) {
    if ms == [] then q else Offer(OfferAll(q, ms[..|ms| - 1]), ms[|ms| - 1])
  }

  class Queue {
    const slots: array<Message>
    var count: nat

    ghost predicate Valid()
      reads this
    {
      slots.Length == MAX_QUEUE_SIZE && count <= MAX_QUEUE_SIZE
    }

    ghost function Contents(): (q: seq<Message>)
      requires Valid()
      reads this, slots
    {
      slots[..count]
    }

    constructor ()
      ensures Valid() && Contents() == [] && fresh(slots)
    {
      slots := new Message[MAX_QUEUE_SIZE](_ => RESET_MESSAGE);
      count := 0;
    }

    method Enqueue(m: Message)
      requires Valid()
      modifies this`count, slots
      ensures Valid() && Contents() == Offer(old(Contents()), m)
    {
      if count < MAX_QUEUE_SIZE {
        slots[count] := m;
        count := count + 1;
      }
    }

    /** Takes the first message and shifts the others down by one slot. */
    method Dequeue() returns (m: Message)
      requires Valid() && 0 < count
      modifies this`count, slots
      ensures Valid() && old(Contents()) == [m] + Contents()
    {
      m := slots[0];
      slots[0] := RESET_MESSAGE;
      var i := 0;
      while i < count - 1
        invariant Valid() && count == old(count)
        invariant 0 <= i <= count - 1
        invariant forall k :: 0 <= k < i ==> slots[k] == old(slots[k + 1])
        invariant forall k :: i < k < count ==> slots[k] == old(slots[k])
      {
        slots[i] := slots[i + 1];
        i := i + 1;
      }
      count := count - 1;
    }

    method EnqueueAll(ms: seq<Message>)
      requires Valid()
      modifies this`count, slots
      ensures Valid() && Contents() == OfferAll(old(Contents()), ms)
    {
      for i := 0 to |ms|
        invariant Valid() && Contents() == OfferAll(old(Contents()), ms[..i])
      {
        Enqueue(ms[i]);
        assert ms[..i + 1][..i] == ms[..i];
      }
      assert ms[..|ms|] == ms;
    }
  }

  lemma {:induction false} OfferAllExtends(q: seq<Message>, ms: seq<Message>)
    requires |q| <= MAX_QUEUE_SIZE
    ensures q <= OfferAll(q, ms) && |OfferAll(q, ms)| <= MAX_QUEUE_SIZE
  {
    if ms != [] {
      OfferAllExtends(q, ms[..|ms| - 1]);
    }
  }

  // ----- draining the queue -----

  /** What a run of the handler loop took, what it left, and whether it ended at an exit request. */
  datatype Drained = Drained(processed: seq<Message>, left: seq<Message>, exited: bool)

  /**
    The handler loop against a schedule of arrivals: before each turn the next batch is
    enqueued; the loop ends at an exit request, or parks for good on an empty queue.
  */
  function Drain(q: seq<Message>, arrivals: seq<seq<Message>>): (d: Drained)
    decreases |arrivals|, |q|, 1
  {
    var q' := if arrivals == [] then q else OfferAll(q, arrivals[0]);
    var later := if arrivals == [] then [] else arrivals[1..];
    if q' != [] then Serve(q', later)
    else if arrivals == [] then Drained([], [], false)
    else Drain(q', later)
  }

  /** A turn with a message to take, and the turns after it. */
  function Serve(q: seq<Message>, later: seq<seq<Message>>): (d: Drained)
    requires q != []
    decreases |later|, |q|, 0
  {
    if q[0].kind == ExitRequested then Drained([q[0]], q[1..], true)
    else
      var d := Drain(q[1..], later);
      Drained([q[0]] + d.processed, d.left, d.exited)
  }

  /** The index of the first exit request, or the length of the list. */
  function FirstExit(q: seq<Message>): (k: nat)
    ensures k <= |q|
    ensures k < |q| ==> q[k].kind == ExitRequested
    ensures forall i :: 0 <= i < k ==> q[i].kind != ExitRequested
  {
    if q == [] || q[0].kind == ExitRequested then 0 else 1 + FirstExit(q[1..])
  }

  lemma FirstExitOfExtension(q: seq<Message>, r: seq<Message>)
    requires q <= r && FirstExit(q) < |q|
    ensures FirstExit(r) == FirstExit(q)
  {
    var k := FirstExit(q);
    assert r[k] == q[k];
    assert forall i :: 0 <= i < k ==> r[i] == q[i];
  }

  /**
    With an exit request pending, the loop processes exactly the messages up to it, in
    order, whatever arrives meanwhile, and ends.
  */
  lemma {:induction false} ExitStopsHandler(q: seq<Message>, arrivals: seq<seq<Message>>)
    requires |q| <= MAX_QUEUE_SIZE && FirstExit(q) < |q|
    ensures Drain(q, arrivals).exited && Drain(q, arrivals).processed == q[..FirstExit(q) + 1]
    decreases FirstExit(q)
  {
    var q' := if arrivals == [] then q else OfferAll(q, arrivals[0]);
    var later := if arrivals == [] then [] else arrivals[1..];
    if arrivals != [] {
      OfferAllExtends(q, arrivals[0]);
    }
    FirstExitOfExtension(q, q');
    assert q'[..FirstExit(q) + 1] == q[..FirstExit(q) + 1];
    if q'[0].kind == ExitRequested {
      assert q'[..1] == [q'[0]];
    } else {
      ExitStopsHandler(q'[1..], later);
      assert [q'[0]] + q'[1..][..FirstExit(q)] == q'[..FirstExit(q) + 1];
    }
  }

  /** Without an exit request among the pending and arriving messages, the loop never ends. */
  lemma {:induction false} NoExitNoEnd(q: seq<Message>, arrivals: seq<seq<Message>>)
    requires |q| <= MAX_QUEUE_SIZE && FirstExit(q) == |q|
    requires forall i :: 0 <= i < |arrivals| ==> FirstExit(arrivals[i]) == |arrivals[i]|
    ensures !Drain(q, arrivals).exited
    decreases |arrivals|, |q|
  {
    var q' := if arrivals == [] then q else OfferAll(q, arrivals[0]);
    var later := if arrivals == [] then [] else arrivals[1..];
    if arrivals != [] {
      OfferAllExtends(q, arrivals[0]);
      NoExitOffered(q, arrivals[0]);
    }
    if q' != [] {
      NoExitNoEnd(q'[1..], later);
    } else if arrivals != [] {
      NoExitNoEnd(q', later);
    }
  }

  ghost predicate NoExit(q: seq<Message>) {
    forall i :: 0 <= i < |q| ==> q[i].kind != ExitRequested
  }

  lemma {:induction false} NoExitOffered(q: seq<Message>, ms: seq<Message>)
    requires NoExit(q) && NoExit(ms)
    ensures NoExit(OfferAll(q, ms)) && FirstExit(OfferAll(q, ms)) == |OfferAll(q, ms)|
  {
    if ms != [] {
      NoExitOffered(q, ms[..|ms| - 1]);
    }
  }

  /**
    Shutdown: the exit request is appended to what is pending. The handler ends exactly when
    it was accepted, that is when fewer than 32 messages were pending; then it has processed
    everything pending and nothing that came later.
  */
  lemma ShutdownEnds(q: seq<Message>, arrivals: seq<seq<Message>>)
    requires |q| <= MAX_QUEUE_SIZE && NoExit(q)
    requires forall i :: 0 <= i < |arrivals| ==> NoExit(arrivals[i])
    ensures Drain(Offer(q, EXIT_MESSAGE), arrivals).exited <==> |q| < 32
    ensures |q| < 32 ==> Drain(Offer(q, EXIT_MESSAGE), arrivals).processed == q + [EXIT_MESSAGE]
  {
    if |q| < MAX_QUEUE_SIZE {
      assert (q + [EXIT_MESSAGE])[|q|] == EXIT_MESSAGE;
      assert forall i :: 0 <= i < |q| ==> (q + [EXIT_MESSAGE])[i] == q[i];
      ExitStopsHandler(q + [EXIT_MESSAGE], arrivals);
    } else {
      NoExitNoEnd(q, arrivals);
    }
  }
}
