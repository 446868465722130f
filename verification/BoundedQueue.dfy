/** The log sink's queue: fixed concurrency, bounded length, newest dropped. Pushes and the completion
    callbacks of the worker may interleave in any order; each runs to its end undisturbed. */
module BoundedQueue {

  /** The queue's fields and what happened so far: the items accepted, the items started, and the
      running ones by their position among the started. */
  datatype State<T> = State(queue: seq<T>, inFlight: int, droppedTotal: nat,
                            accepted: seq<T>, started: seq<T>, running: set<nat>)

  function Empty<T>(): State<T> {
    State([], 0, 0, [], [], {})
  }

  function StartFirst<T>(s: State<T>): State<T>
    requires s.queue != []
  {
    s.(queue := s.queue[1..], inFlight := s.inFlight + 1,
       started := s.started + [s.queue[0]], running := s.running + {|s.started|})
  }

  function Drained<T>(concurrency: nat, s: State<T>): State<T>
    decreases |s.queue|
  {
    if s.inFlight < concurrency && |s.queue| > 0 then Drained(concurrency, StartFirst(s)) else s
  }

  function Pushed<T>(concurrency: nat, maxSize: nat, s: State<T>, item: T): State<T> {
    if |s.queue| >= maxSize then s.(droppedTotal := s.droppedTotal + 1)
    else Drained(concurrency, s.(queue := s.queue + [item], accepted := s.accepted + [item]))
  }

  /** The worker's promise for one running item settles, with success or not. */
  function Completed<T>(concurrency: nat, s: State<T>, ticket: nat): State<T> {
    Drained(concurrency, s.(inFlight := s.inFlight - 1, running := s.running - {ticket}))
  }

  class Queue<T> {
    const concurrency: nat
    const maxSize: nat
    var queue: seq<T>
    var inFlight: int
    var droppedTotal: nat
    ghost var accepted: seq<T>
    ghost var started: seq<T>
    ghost var running: set<nat>

    ghost function View(): State<T>
      reads this
    {
      State(queue, inFlight, droppedTotal, accepted, started, running)
    }

    ghost predicate Valid()
      reads this
    {
      0 < concurrency && 0 < maxSize && Inv(concurrency, maxSize, View())
    }

    constructor (concurrency: nat, maxSize: nat)
      requires 0 < concurrency && 0 < maxSize
      ensures Valid() && View() == Empty()
      ensures this.concurrency == concurrency && this.maxSize == maxSize
    {
      this.concurrency := concurrency;
      this.maxSize := maxSize;
      queue := [];
      inFlight := 0;
      droppedTotal := 0;
      accepted := [];
      started := [];
      running := {};
    }

    /** The source's constructor throws where this answers null. */
    static method Make(concurrency: int, maxSize: int) returns (q: Queue?<T>)
      ensures q == null <==> concurrency <= 0 || maxSize <= 0
      ensures q != null ==> fresh(q) && q.Valid() && q.View() == Empty()
      ensures q != null ==> q.concurrency == concurrency && q.maxSize == maxSize
    {
      if concurrency <= 0 || maxSize <= 0 {
        return null;
      }
      q := new Queue(concurrency, maxSize);
    }

    method Push(item: T) returns (taken: bool)
      requires Valid()
      modifies this
      ensures Valid()
      ensures View() == Pushed(concurrency, maxSize, old(View()), item)
      ensures taken <==> accepted == old(accepted) + [item]
      ensures !taken ==> accepted == old(accepted) && Outstanding(View()) == concurrency + maxSize
    {
      PushKeeps(concurrency, maxSize, View(), item);
      if |queue| >= maxSize {
        droppedTotal := droppedTotal + 1;
        return false;
      }
      queue := queue + [item];
      accepted := accepted + [item];
      Drain();
      return true;
    }

    method Drain()
      modifies this
      ensures View() == Drained(concurrency, old(View()))
    {
      while inFlight < concurrency && |queue| > 0
        invariant Drained(concurrency, View()) == Drained(concurrency, old(View()))
        decreases |queue|
      {
        ghost var before := View();
        started, running := started + [queue[0]], running + {|started|};
        queue := queue[1..];
        inFlight := inFlight + 1;
        assert View() == StartFirst(before);
      }
    }

    /** The callback behind a worker's promise. */
    method OnSettled(ghost ticket: nat)
      requires Valid() && ticket in running
      modifies this
      ensures Valid()
      ensures View() == Completed(concurrency, old(View()), ticket)
      ensures Outstanding(View()) == Outstanding(old(View())) - 1
    {
      CompleteKeeps(concurrency, maxSize, View(), ticket);
      inFlight := inFlight - 1;
      running := running - {ticket};
      Drain();
    }

    /** What drainAndWait waits for. */
    method IsDrained() returns (idle: bool)
      requires Valid()
      ensures idle <==> Outstanding(View()) == 0
    {
      idle := !(|queue| > 0 || inFlight > 0);
    }
  }

  // ---- invariants ----

  function Outstanding<T>(s: State<T>): int {
    |s.queue| + s.inFlight
  }

  /** All but that the workers are busy while something waits. */
  ghost predicate Consistent<T>(concurrency: nat, s: State<T>) {
    && s.accepted == s.started + s.queue
    && 0 <= s.inFlight == |s.running| <= concurrency
    && (forall t :: t in s.running ==> t < |s.started|)
  }

  /** First in first out; never more than concurrency running; nothing waits while a worker is free. */
  ghost predicate Inv<T>(concurrency: nat, maxSize: nat, s: State<T>) {
    && Consistent(concurrency, s)
    && |s.queue| <= maxSize
    && (s.queue != [] ==> s.inFlight == concurrency)
  }

  function Min(a: int, b: int): int {
    if a < b then a else b
  }

  lemma {:induction false} StartKeeps<T>(concurrency: nat, s: State<T>)
    requires Consistent(concurrency, s) && s.inFlight < concurrency && s.queue != []
    ensures Consistent(concurrency, StartFirst(s))
  {
    assert s.queue == [s.queue[0]] + s.queue[1..];
    var next := StartFirst(s);
    assert next.accepted == next.started + next.queue;
    assert |s.started| !in s.running;
  }

  /** How many items a drain starts. */
  function Free<T>(concurrency: nat, s: State<T>): int {
    Min(|s.queue|, concurrency - s.inFlight)
  }

  /** Draining starts as many items as there are free workers, the first ones of the queue. */
  ghost predicate DrainsTo<T>(s: State<T>, n: nat, d: State<T>) {
    && n <= |s.queue| && d.queue == s.queue[n..] && d.inFlight == s.inFlight + n
    && d.started == s.started + s.queue[..n]
    && d.accepted == s.accepted && d.droppedTotal == s.droppedTotal
  }

  lemma {:induction false} OneMore<T>(s: State<T>, n: nat, d: State<T>)
    requires s.queue != [] && DrainsTo(StartFirst(s), n, d)
    ensures DrainsTo(s, n + 1, d)
  {
    assert s.queue[1..][n..] == s.queue[n + 1..];
    assert [s.queue[0]] + s.queue[1..][..n] == s.queue[..n + 1];
  }

  lemma {:induction false} DrainedIsPrefix<T>(concurrency: nat, s: State<T>)
    requires Consistent(concurrency, s)
    ensures 0 <= Free(concurrency, s) && DrainsTo(s, Free(concurrency, s), Drained(concurrency, s))
    ensures Consistent(concurrency, Drained(concurrency, s))
    decreases |s.queue|
  {
    var n := Free(concurrency, s);
    assert 0 <= n;
    if s.inFlight < concurrency && |s.queue| > 0 {
      StartKeeps(concurrency, s);
      hide Consistent, DrainsTo;
      DrainedIsPrefix(concurrency, StartFirst(s));
      OneMore(s, n - 1, Drained(concurrency, s));
    } else {
      assert s.queue[..0] == [] && s.started + [] == s.started;
    }
  }

  /** A push keeps the invariant; it adds one to the outstanding items unless all concurrency + maxSize
      places are taken. */
  lemma {:induction false} PushKeeps<T>(concurrency: nat, maxSize: nat, s: State<T>, item: T)
    requires Inv(concurrency, maxSize, s) && 0 < concurrency && 0 < maxSize
    ensures var p := Pushed(concurrency, maxSize, s, item);
            && Inv(concurrency, maxSize, p) && |p.started| - |p.running| == |s.started| - |s.running|
            && if Outstanding(s) < concurrency + maxSize
               then Outstanding(p) == Outstanding(s) + 1 && p.accepted == s.accepted + [item]
                     && p.droppedTotal == s.droppedTotal
               else p == s.(droppedTotal := s.droppedTotal + 1)
  {
    if |s.queue| < maxSize {
      var longer := s.(queue := s.queue + [item], accepted := s.accepted + [item]);
      DrainedIsPrefix(concurrency, longer);
    }
  }

  lemma {:induction false} CompleteKeeps<T>(concurrency: nat, maxSize: nat, s: State<T>, ticket: nat)
    requires Inv(concurrency, maxSize, s) && ticket in s.running
    ensures var d := Completed(concurrency, s, ticket);
            && Inv(concurrency, maxSize, d) && |d.started| - |d.running| == |s.started| - |s.running| + 1
            && Outstanding(d) == Outstanding(s) - 1
            && d.accepted == s.accepted && d.droppedTotal == s.droppedTotal
  {
    DrainedIsPrefix(concurrency, s.(inFlight := s.inFlight - 1, running := s.running - {ticket}));
  }

  // ---- runs ----

  datatype Event<T> = Push(item: T) | Settle(ticket: nat, succeeded: bool)

  function Step<T>(concurrency: nat, maxSize: nat, s: State<T>, e: Event<T>): State<T> {
    match e
    case Push(item) => Pushed(concurrency, maxSize, s, item)
    case Settle(ticket, _) => Completed(concurrency, s, ticket)
  }

  /** Only running items settle. */
  ghost predicate Possible<T>(concurrency: nat, maxSize: nat, s: State<T>, events: seq<Event<T>>)
    decreases |events|
  {
    events == []
    || ((events[0].Settle? ==> events[0].ticket in s.running)
        && Possible(concurrency, maxSize, Step(concurrency, maxSize, s, events[0]), events[1..]))
  }

  function Run<T>(concurrency: nat, maxSize: nat, s: State<T>, events: seq<Event<T>>): State<T>
    decreases |events|
  {
    if events == [] then s else Run(concurrency, maxSize, Step(concurrency, maxSize, s, events[0]), events[1..])
  }

  /** The same run as a counter of outstanding items, and what it takes and refuses. */
  datatype Counter<T> = Counter(outstanding: int, taken: seq<T>, refused: nat, settled: nat)

  function CountOne<T>(places: nat, c: Counter<T>, e: Event<T>): Counter<T> {
    match e
    case Push(item) =>
      if c.outstanding < places then c.(outstanding := c.outstanding + 1, taken := c.taken + [item])
      else c.(refused := c.refused + 1)
    case Settle(_, _) => c.(outstanding := c.outstanding - 1, settled := c.settled + 1)
  }

  function Count<T>(places: nat, c: Counter<T>, events: seq<Event<T>>): Counter<T>
    decreases |events|
  {
    if events == [] then c else Count(places, CountOne(places, c, events[0]), events[1..])
  }

  ghost predicate Agree<T>(concurrency: nat, s: State<T>, c: Counter<T>) {
    && Outstanding(s) == c.outstanding && s.accepted == c.taken
    && s.droppedTotal == c.refused && |s.started| - |s.running| == c.settled
  }

  lemma {:induction false} RunKeeps<T>(concurrency: nat, maxSize: nat, s: State<T>, c: Counter<T>,
                                       events: seq<Event<T>>)
    requires 0 < concurrency && 0 < maxSize && Inv(concurrency, maxSize, s) && Agree(concurrency, s, c)
    requires Possible(concurrency, maxSize, s, events)
    ensures var end := Run(concurrency, maxSize, s, events);
            Inv(concurrency, maxSize, end) && Agree(concurrency, end, Count(concurrency + maxSize, c, events))
    decreases |events|
  {
    if events != [] {
      match events[0] {
        case Push(item) => PushKeeps(concurrency, maxSize, s, item);
        case Settle(ticket, _) => CompleteKeeps(concurrency, maxSize, s, ticket);
      }
      hide Inv, Drained, Pushed, Completed;
      var next := Step(concurrency, maxSize, s, events[0]);
      var counted := CountOne(concurrency + maxSize, c, events[0]);
      assert Agree(concurrency, next, counted);
      RunKeeps(concurrency, maxSize, next, counted, events[1..]);
    }
  }

  function Pushes<T>(events: seq<Event<T>>): nat {
    if events == [] then 0 else (if events[0].Push? then 1 else 0) + Pushes(events[1..])
  }

  lemma {:induction false} CountsPushes<T>(places: nat, c: Counter<T>, events: seq<Event<T>>)
    ensures var end := Count(places, c, events);
            |end.taken| + end.refused == |c.taken| + c.refused + Pushes(events)
    decreases |events|
  {
    if events != [] {
      CountsPushes(places, CountOne(places, c, events[0]), events[1..]);
    }
  }

  /** Every run is the run of a counter of concurrency + maxSize places: it takes and drops the same
      items; the items started are the first ones taken, in their order, as many as there were workers
      and completions for; and as many run as there are outstanding, up to concurrency. */
  lemma {:induction false} RunIsCounter<T>(concurrency: nat, maxSize: nat, events: seq<Event<T>>)
    requires 0 < concurrency && 0 < maxSize && Possible(concurrency, maxSize, Empty(), events)
    ensures var s := Run(concurrency, maxSize, Empty(), events);
            var c := Count(concurrency + maxSize, Counter(0, [], 0, 0), events);
            && 0 <= c.outstanding <= concurrency + maxSize
            && s.accepted == c.taken && s.droppedTotal == c.refused
            && |c.taken| + c.refused == Pushes(events)
            && s.started == c.taken[..Min(|c.taken|, concurrency + c.settled)]
            && s.started + s.queue == c.taken
            && s.inFlight == |s.running| == Min(c.outstanding, concurrency)
            && |s.queue| == c.outstanding - s.inFlight <= maxSize
  {
    var zero: Counter<T> := Counter(0, [], 0, 0);
    RunKeeps(concurrency, maxSize, Empty(), zero, events);
    CountsPushes(concurrency + maxSize, zero, events);
    var s := Run(concurrency, maxSize, Empty(), events);
    assert s.accepted[..|s.started|] == s.started;
  }

  /** Once pushes stop, each completion takes one item away, so the queue is empty and idle after exactly
      as many as were outstanding; until then some item is running, so one more can come. */
  lemma {:induction false} DrainsOut<T>(concurrency: nat, maxSize: nat, s: State<T>, events: seq<Event<T>>)
    requires 0 < concurrency && Inv(concurrency, maxSize, s)
    requires (forall i :: 0 <= i < |events| ==> events[i].Settle?) && Possible(concurrency, maxSize, s, events)
    ensures var end := Run(concurrency, maxSize, s, events);
            && Inv(concurrency, maxSize, end)
            && Outstanding(end) == Outstanding(s) - |events|
            && (end.queue == [] && end.inFlight == 0 <==> |events| == Outstanding(s))
            && (|events| < Outstanding(s) ==> end.running != {})
            && end.accepted == s.accepted && end.droppedTotal == s.droppedTotal
    decreases |events|
  {
    if events != [] {
      CompleteKeeps(concurrency, maxSize, s, events[0].ticket);
      DrainsOut(concurrency, maxSize, Step(concurrency, maxSize, s, events[0]), events[1..]);
    }
  }
}
