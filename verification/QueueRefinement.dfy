/**
  The lock-level protocol refines the queue's operations: seen in mutex order, a run of it is
  a sequence of offers and takes, and the handler's draining of some schedule of arrivals.
*/
module QueueRefinement {
  import opened Wrappers
  import opened MessageQueue
  import opened QueueProtocol

  /** What a step does to the queue. */
  datatype Event = Offered(m: Message) | HeadTaken

  function EventOf(s: State<Message>, step: Step<Message>): (e: Option<Event>)
    requires Next(s, step).Some?
  {
    match step
    case Append(id) => Some(Offered(ProducerOf(s, id).m))
    case Drop(id) => Some(Offered(ProducerOf(s, id).m))
    case ConsumerTake => Some(HeadTaken)
    case _ => None
  }

  /** The events of a run, in the order in which the mutex was held. */
  function Events(s: State<Message>, steps: seq<Step<Message>>): (es: seq<Event>)
    requires Run(s, steps).Some?
    decreases steps
  {
    if steps == [] then []
    else
      Noted(EventOf(s, steps[0]), Events(Next(s, steps[0]).value, steps[1..]))
  }

  function Noted(e: Option<Event>, later: seq<Event>): (es: seq<Event>) {
    if e.None? then later else [e.value] + later
  }

  datatype Played = Played(queue: seq<Message>, taken: seq<Message>)

  /** Heads are taken only from a queue that has one. */
  predicate Playable(q: seq<Message>, es: seq<Event>)
    decreases es
  {
    es == [] ||
    match es[0]
    case Offered(m) => Playable(Offer(q, m), es[1..])
    case HeadTaken => q != [] && Playable(q[1..], es[1..])
  }

  /** The queue after these operations, and what was taken from it. */
  function Play(q: seq<Message>, es: seq<Event>): (r: Played)
    requires Playable(q, es)
    decreases es
  {
    if es == [] then Played(q, [])
    else
      match es[0]
      case Offered(m) => Play(Offer(q, m), es[1..])
      case HeadTaken => var r := Play(q[1..], es[1..]); Played(r.queue, [q[0]] + r.taken)
  }

  lemma StepIsPlay(s: State<Message>, step: Step<Message>)
    requires Next(s, step).Some?
    ensures var u := Next(s, step).value;
            match EventOf(s, step)
            case None => u.queue == s.queue && u.taken == s.taken
            case Some(Offered(m)) => u.queue == Offer(s.queue, m) && u.taken == s.taken
            case Some(HeadTaken) => s.queue != [] && u.queue == s.queue[1..] && u.taken == s.taken + [s.queue[0]]
  {
  }

  lemma PlayCons(q: seq<Message>, e: Event, rest: seq<Event>)
    requires match e case Offered(m) => Playable(Offer(q, m), rest) case HeadTaken => q != [] && Playable(q[1..], rest)
    ensures Playable(q, [e] + rest)
    ensures Play(q, [e] + rest) ==
            match e
            case Offered(m) => Play(Offer(q, m), rest)
            case HeadTaken => var r := Play(q[1..], rest); Played(r.queue, [q[0]] + r.taken)
  {
    assert ([e] + rest)[1..] == rest;
  }

  /** One step, and then what follows it. */
  lemma StepThenPlay(s: State<Message>, step: Step<Message>, later: seq<Event>)
    requires Next(s, step).Some? && Playable(Next(s, step).value.queue, later)
    ensures var u, es := Next(s, step).value, Noted(EventOf(s, step), later);
            && Playable(s.queue, es) && Play(s.queue, es).queue == Play(u.queue, later).queue
            && s.taken + Play(s.queue, es).taken == u.taken + Play(u.queue, later).taken
  {
    StepIsPlay(s, step);
    var e, u := EventOf(s, step), Next(s, step).value;
    if e.Some? {
      PlayCons(s.queue, e.value, later);
      if e.value.HeadTaken? {
        TakenThenMore(s.taken, s.queue[0], Play(u.queue, later).taken);
      }
    }
  }

  lemma TakenThenMore(taken: seq<Message>, m: Message, more: seq<Message>)
    ensures taken + ([m] + more) == taken + [m] + more
  {
  }

  /** A run's queue and taken messages are those of its events. */
  lemma {:induction false} RunIsPlay(s: State<Message>, steps: seq<Step<Message>>)
    requires Run(s, steps).Some?
    ensures var t, es := Run(s, steps).value, Events(s, steps);
            Playable(s.queue, es) && t.queue == Play(s.queue, es).queue && t.taken == s.taken + Play(s.queue, es).taken
    decreases steps
  {
    if steps != [] {
      var u := Next(s, steps[0]).value;
      RunIsPlay(u, steps[1..]);
      StepThenPlay(s, steps[0], Events(u, steps[1..]));
    }
  }

  /** The offers between one take and the next. */
  function Batches(es: seq<Event>): (batches: seq<seq<Message>>)
    ensures batches != []
  {
    if es == [] then [[]]
    else
      var later := Batches(es[1..]);
      match es[0]
      case Offered(m) => [[m] + later[0]] + later[1..]
      case HeadTaken => [[]] + later
  }

  lemma {:induction false} OfferFirst(q: seq<Message>, m: Message, ms: seq<Message>)
    ensures OfferAll(q, [m] + ms) == OfferAll(Offer(q, m), ms)
  {
    if ms == [] {
      assert ([m] + [])[..0] == [];
    } else {
      var n := |ms| - 1;
      OfferFirst(q, m, ms[..n]);
      assert ([m] + ms)[..n + 1] == [m] + ms[..n];
    }
  }

  /** A drain takes what was taken, and then goes on with what is left, unless told to exit. */
  predicate DrainsAs(d: Drained, r: Played) {
    var e := Drain(r.queue, []);
    if r.taken != [] && r.taken[|r.taken| - 1].kind == ExitRequested then d.processed == r.taken && d.exited
    else d == Drained(r.taken + e.processed, e.left, e.exited)
  }

  /** At most the last message taken is an exit request. */
  ghost predicate ExitsLast(taken: seq<Message>) {
    taken == [] || NoExit(taken[..|taken| - 1])
  }

  lemma DrainOffered(q: seq<Message>, m: Message, batches: seq<seq<Message>>)
    requires batches != []
    ensures Drain(q, [[m] + batches[0]] + batches[1..]) == Drain(Offer(q, m), batches)
  {
    OfferFirst(q, m, batches[0]);
    assert ([[m] + batches[0]] + batches[1..])[1..] == batches[1..];
  }

  lemma DrainTaken(q: seq<Message>, batches: seq<seq<Message>>)
    requires q != []
    ensures Drain(q, [[]] + batches) ==
            if q[0].kind == ExitRequested then Drained([q[0]], q[1..], true)
            else var d := Drain(q[1..], batches); Drained([q[0]] + d.processed, d.left, d.exited)
  {
    assert ([[]] + batches)[1..] == batches && OfferAll(q, []) == q;
  }

  lemma DrainNothing(q: seq<Message>)
    ensures Drain(q, [[]]) == Drain(q, [])
  {
    var none: seq<seq<Message>> := [[]];
    assert none[1..] == [] && OfferAll(q, []) == q;
  }

  /** The handler's drain of the batches of some events. */
  lemma {:induction false} DrainIsPlay(q: seq<Message>, es: seq<Event>)
    requires Playable(q, es) && ExitsLast(Play(q, es).taken)
    ensures DrainsAs(Drain(q, Batches(es)), Play(q, es))
    decreases es
  {
    if es == [] {
      DrainNothing(q);
    } else {
      var later := Batches(es[1..]);
      match es[0]
      case Offered(m) =>
        DrainOffered(q, m, later);
        DrainIsPlay(Offer(q, m), es[1..]);
      case HeadTaken =>
        DrainTaken(q, later);
        var tail := Play(q[1..], es[1..]);
        TailExitsLast(q[0], tail.taken);
        if tail.taken != [] || q[0].kind != ExitRequested {
          DrainIsPlay(q[1..], es[1..]);
          TakenFirst(q[0], Drain(q[1..], later), tail);
        }
    }
  }

  lemma TailExitsLast(m: Message, taken: seq<Message>)
    requires ExitsLast([m] + taken)
    ensures ExitsLast(taken) && (taken != [] ==> m.kind != ExitRequested)
  {
    if taken != [] {
      var init := ([m] + taken)[..|taken|];
      assert init[0] == m && forall i :: 0 <= i < |taken| - 1 ==> taken[i] == init[i + 1];
    }
  }

  lemma TakenFirst(m: Message, d: Drained, r: Played)
    requires DrainsAs(d, r) && m.kind != ExitRequested
    ensures DrainsAs(Drained([m] + d.processed, d.left, d.exited), Played(r.queue, [m] + r.taken))
  {
    var e := Drain(r.queue, []);
    assert [m] + (r.taken + e.processed) == [m] + r.taken + e.processed;
  }

  /**
    Every run of the protocol is a drain: what its consumer has taken is what the handler
    loop processes first against the batches that came in between, and all it processes if
    the last message was an exit request.
  */
  lemma ProtocolIsDrain(steps: seq<Step<Message>>)
    requires Run(Start<Message>(), steps).Some? && ExitsLast(Run(Start<Message>(), steps).value.taken)
    ensures var t := Run(Start<Message>(), steps).value;
            DrainsAs(Drain([], Batches(Events(Start<Message>(), steps))), Played(t.queue, t.taken))
  {
    var s := Start<Message>();
    RunIsPlay(s, steps);
    assert s.taken + Play([], Events(s, steps)).taken == Play([], Events(s, steps)).taken;
    DrainIsPlay([], Events(s, steps));
  }
}
