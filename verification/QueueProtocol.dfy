/**
  The mutex and condition variable around the message queue, as a state machine: any number
  of producers and one consumer, one step per lock, wait, signal, append, take and unlock.
*/
module QueueProtocol {
  import opened Wrappers
  import opened MessageQueue

  datatype Owner = Free | Producer(id: nat) | Consumer

  /** Where a producer is inside EnqueueMessage. */
  datatype ProducerAt<M> = Idle | Locked(m: M) | Appended | Leaving

  /** Where the consumer is inside DequeueMessage. Woken: signalled, but the mutex not yet taken back. */
  datatype ConsumerAt = Outside | Checking | Parked | Woken | Taken

  datatype State<M> = State(
    mutex: Owner,
    producers: map<nat, ProducerAt<M>>,
    consumer: ConsumerAt,
    queue: seq<M>,
    accepted: seq<M>,
    taken: seq<M>,
    dropped: seq<M>)

  datatype Step<M> =
    | Lock(id: nat, m: M)
    | Append(id: nat)
    | Drop(id: nat)
    | Signal(id: nat)
    | Unlock(id: nat)
    | ConsumerLock
    | ConsumerWait
    | SpuriousWake
    | ConsumerRelock
    | ConsumerTake
    | ConsumerUnlock

  function ProducerOf<M>(s: State<M>, id: nat): (at: ProducerAt<M>) {
    if id in s.producers then s.producers[id] else Idle
  }

  /** The state after a step, if the step is possible. */
  function Next<M>(s: State<M>, step: Step<M>): (t: Option<State<M>>) {
    match step
    case Lock(id, m) =>
      if s.mutex == Free && ProducerOf(s, id) == Idle
      then Some(s.(mutex := Producer(id), producers := s.producers[id := Locked(m)]))
      else None
    case Append(id) =>
      if ProducerOf(s, id).Locked? && |s.queue| < MAX_QUEUE_SIZE
      then
        var m := ProducerOf(s, id).m;
        Some(s.(producers := s.producers[id := Appended], queue := s.queue + [m], accepted := s.accepted + [m]))
      else None
    case Drop(id) =>
      if ProducerOf(s, id).Locked? && |s.queue| >= MAX_QUEUE_SIZE
      then Some(s.(producers := s.producers[id := Leaving], dropped := s.dropped + [ProducerOf(s, id).m]))
      else None
    case Signal(id) =>
      if ProducerOf(s, id) == Appended
      then Some(s.(producers := s.producers[id := Leaving], consumer := if s.consumer == Parked then Woken else s.consumer))
      else None
    case Unlock(id) =>
      if ProducerOf(s, id) == Leaving
      then Some(s.(mutex := Free, producers := s.producers[id := Idle]))
      else None
    case ConsumerLock =>
      if s.mutex == Free && s.consumer == Outside then Some(s.(mutex := Consumer, consumer := Checking)) else None
    case ConsumerWait =>
      if s.consumer == Checking && s.queue == [] then Some(s.(mutex := Free, consumer := Parked)) else None
    case SpuriousWake =>
      if s.consumer == Parked then Some(s.(consumer := Woken)) else None
    case ConsumerRelock =>
      if s.mutex == Free && s.consumer == Woken then Some(s.(mutex := Consumer, consumer := Checking)) else None
    case ConsumerTake =>
      if s.consumer == Checking && s.queue != []
      then Some(s.(consumer := Taken, queue := s.queue[1..], taken := s.taken + [s.queue[0]]))
      else None
    case ConsumerUnlock =>
      if s.consumer == Taken then Some(s.(mutex := Free, consumer := Outside)) else None
  }

  function Start<M>(): (s: State<M>) {
    State(Free, map[], Outside, [], [], [], [])
  }

  /** The state after a run of steps, if each was possible. */
  function Run<M>(s: State<M>, steps: seq<Step<M>>): (t: Option<State<M>>)
    decreases steps
  {
    if steps == [] then Some(s)
    else
      match Next(s, steps[0])
      case None => None
      case Some(t) => Run(t, steps[1..])
  }

  // ----- what every reachable state satisfies -----

  /** Whoever is inside a critical section owns the mutex. */
  ghost predicate Exclusive<M>(s: State<M>) {
    && (forall id :: ProducerOf(s, id) != Idle <==> s.mutex == Producer(id))
    && (s.consumer in {Checking, Taken} <==> s.mutex == Consumer)
  }

  /** Messages come out in the order they went in, none lost and none made up. */
  predicate Fifo<M(==)>(s: State<M>) {
    s.accepted == s.taken + s.queue && |s.queue| <= MAX_QUEUE_SIZE
  }

  /** A producer has appended and is about to signal. */
  predicate SignalDue<M>(s: State<M>) {
    s.mutex.Producer? && ProducerOf(s, s.mutex.id) == Appended
  }

  /**
    A parked consumer with no signal on its way means an empty queue, except while the
    producer that just appended still holds the mutex and is about to signal.
  */
  predicate NoLostWakeup<M(==)>(s: State<M>) {
    s.consumer == Parked && s.queue != [] ==> SignalDue(s)
  }

  ghost predicate Inv<M(!new)>(s: State<M>) {
    Exclusive(s) && Fifo(s) && NoLostWakeup(s) && (SignalDue(s) ==> s.queue != [])
  }

  lemma StepKeepsInv<M(!new)>(s: State<M>, step: Step<M>)
    requires Inv(s) && Next(s, step).Some?
    ensures Inv(Next(s, step).value)
  {
    var t := Next(s, step).value;
    forall id
      ensures ProducerOf(t, id) != Idle <==> t.mutex == Producer(id)
    {
      assert ProducerOf(s, id) != Idle <==> s.mutex == Producer(id);
    }
  }

  /** Every reachable state, over every interleaving: mutual exclusion, FIFO order, no lost wakeup. */
  lemma {:induction false} ReachableInv<M(!new)>(s: State<M>, steps: seq<Step<M>>)
    requires Inv(s) && Run(s, steps).Some?
    ensures Inv(Run(s, steps).value)
    decreases steps
  {
    if steps != [] {
      StepKeepsInv(s, steps[0]);
      ReachableInv(Next(s, steps[0]).value, steps[1..]);
    }
  }

  /**
    In every reachable state a parked consumer means an empty queue, exactly unless a signal
    is due; in particular whenever the mutex is free.
  */
  lemma ParkedMeansEmpty<M(!new)>(steps: seq<Step<M>>)
    requires Run(Start<M>(), steps).Some?
    ensures var s := Run(Start<M>(), steps).value;
            && s.accepted == s.taken + s.queue
            && (s.consumer == Parked ==> (s.queue == [] <==> !SignalDue(s)))
            && (s.mutex == Free && s.consumer == Parked ==> s.queue == [])
  {
    ReachableInv(Start<M>(), steps);
  }

  /** The exception does occur: the append is a step before the signal. */
  lemma SignalCanBeDue<M(!new)>(m: M) returns (steps: seq<Step<M>>)
    ensures Run(Start<M>(), steps).Some?
    ensures var s := Run(Start<M>(), steps).value; s.consumer == Parked && s.queue == [m] && SignalDue(s)
  {
    steps := [ConsumerLock, ConsumerWait, Lock(0, m), Append(0)];
    var s1 := Next(Start<M>(), ConsumerLock).value;
    var s2 := Next(s1, ConsumerWait).value;
    var s3 := Next(s2, Lock(0, m)).value;
    assert steps[1..] == [ConsumerWait, Lock(0, m), Append(0)];
    assert steps[1..][1..] == [Lock(0, m), Append(0)];
    assert steps[1..][1..][1..] == [Append(0)];
    assert Run(s3, [Append(0)]) == Run(Next(s3, Append(0)).value, []);
    assert Run(s2, [Lock(0, m), Append(0)]) == Run(s3, [Append(0)]);
    assert Run(s1, steps[1..]) == Run(s2, steps[1..][1..]);
  }

  /** A message is dropped only while 32 are pending. */
  lemma DropOnlyWhenFull<M(!new)>(s: State<M>, step: Step<M>)
    requires Inv(s) && Next(s, step).Some?
    ensures Next(s, step).value.dropped != s.dropped ==> |s.queue| == MAX_QUEUE_SIZE && Next(s, step).value.queue == s.queue
  {
  }

  lemma {:induction false} RunAppend<M>(s: State<M>, a: seq<Step<M>>, b: seq<Step<M>>)
    requires Run(s, a).Some?
    ensures Run(s, a + b) == Run(Run(s, a).value, b)
    decreases a
  {
    if a == [] {
      assert a + b == b;
    } else {
      RunAppend(Next(s, a[0]).value, a[1..], b);
      assert (a + b)[1..] == a[1..] + b;
    }
  }

  /** The steps by which a producer inside its critical section leaves it. */
  lemma ProducerLeaves<M(!new)>(s: State<M>) returns (steps: seq<Step<M>>)
    requires Inv(s) && s.mutex.Producer? && s.queue != []
    ensures Run(s, steps).Some?
    ensures var t := Run(s, steps).value;
            && Inv(t) && t.mutex == Free && t.taken == s.taken && s.queue <= t.queue
  {
    var id := s.mutex.id;
    assert ProducerOf(s, id) != Idle;
    match ProducerOf(s, id) {
      case Locked(m) =>
        if |s.queue| < MAX_QUEUE_SIZE {
          var t := Next(s, Append(id)).value;
          var u := Next(t, Signal(id)).value;
          steps := [Append(id), Signal(id), Unlock(id)];
          assert steps[1..] == [Signal(id), Unlock(id)] && steps[1..][1..] == [Unlock(id)];
          assert Run(u, [Unlock(id)]) == Run(Next(u, Unlock(id)).value, []);
          assert Run(t, steps[1..]) == Run(u, [Unlock(id)]);
        } else {
          var t := Next(s, Drop(id)).value;
          steps := [Drop(id), Unlock(id)];
          assert steps[1..] == [Unlock(id)];
          assert Run(t, [Unlock(id)]) == Run(Next(t, Unlock(id)).value, []);
        }
      case Appended =>
        var t := Next(s, Signal(id)).value;
        steps := [Signal(id), Unlock(id)];
        assert steps[1..] == [Unlock(id)];
        assert Run(t, [Unlock(id)]) == Run(Next(t, Unlock(id)).value, []);
      case Leaving =>
        steps := [Unlock(id)];
        assert Run(Next(s, Unlock(id)).value, steps[1..]) == Next(s, Unlock(id));
    }
    ReachableInv(s, steps);
  }

  /** From a free mutex and a pending message, the consumer reaches that message on its own. */
  lemma ConsumerTakes<M(!new)>(s: State<M>) returns (steps: seq<Step<M>>)
    requires Inv(s) && s.mutex == Free && s.queue != []
    ensures Run(s, steps).Some? && Run(s, steps).value.taken == s.taken + [s.queue[0]]
  {
    var enter := if s.consumer == Outside then ConsumerLock else ConsumerRelock;
    assert s.consumer == Outside || s.consumer == Woken;
    var t := Next(s, enter).value;
    steps := [enter, ConsumerTake];
    assert steps[1..] == [ConsumerTake];
    assert Run(t, [ConsumerTake]) == Run(Next(t, ConsumerTake).value, []);
  }

  /**
    The consumer is never stuck while a message is pending: from every reachable state with
    a nonempty queue there is a run, without any new producer or spurious wakeup, in which
    the first pending message is taken next.
  */
  lemma PendingIsTaken<M(!new)>(s: State<M>) returns (steps: seq<Step<M>>)
    requires Inv(s) && s.queue != []
    ensures Run(s, steps).Some? && Run(s, steps).value.taken == s.taken + [s.queue[0]]
  {
    match s.mutex {
      case Free =>
        steps := ConsumerTakes(s);
      case Producer(_) =>
        var first := ProducerLeaves(s);
        var t := Run(s, first).value;
        var second := ConsumerTakes(t);
        RunAppend(s, first, second);
        steps := first + second;
      case Consumer =>
        if s.consumer == Checking {
          steps := [ConsumerTake];
          assert Run(Next(s, ConsumerTake).value, steps[1..]) == Next(s, ConsumerTake);
        } else {
          var t := Next(s, ConsumerUnlock).value;
          StepKeepsInv(s, ConsumerUnlock);
          var second := ConsumerTakes(t);
          steps := [ConsumerUnlock] + second;
          assert steps[1..] == second;
        }
    }
  }
}
