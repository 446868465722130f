/** The chat's send limiter: the guard's list of send times, and the handlers around it. */
module SendLimiter {
  const WINDOW_MS := 10000
  const MAX_SENDS := 5

  /** filter((ts) => now - ts < WINDOW_MS) */
  function Recent(stamps: seq<int>, now: int): seq<int> {
    if stamps == [] then []
    else (if now - stamps[0] < WINDOW_MS then [stamps[0]] else []) + Recent(stamps[1..], now)
  }

  /** What the guard's other checks say of a message: those before the rate check block it, those behind
      it ask for a confirmation. */
  datatype Content = Rejected | Doubtful | Fine

  datatype Verdict = Blocked | TooFast(waitSeconds: int) | Warn | Pass

  /** Math.ceil(waitMs / 1000) */
  function CeilSeconds(waitMs: int): int {
    (waitMs + 999) / 1000
  }

  function CheckVerdict(stamps: seq<int>, content: Content, now: int): Verdict {
    var recent := Recent(stamps, now);
    if content == Rejected then Blocked
    else if |recent| >= MAX_SENDS then TooFast(CeilSeconds(WINDOW_MS - (now - recent[0])))
    else if content == Doubtful then Warn
    else Pass
  }

  /** The guard's list, whether a message waits for its confirmation, and all send times so far. */
  datatype State = State(stamps: seq<int>, pending: bool, sends: seq<int>)

  const START := State([], false, [])

  datatype Event = Send(ready: bool, content: Content, now: int, sentAt: int)
                 | Confirm(now: int)
                 | Cancel

  function Checked(s: State, content: Content, now: int): State {
    if content == Rejected then s else s.(stamps := Recent(s.stamps, now))
  }

  function Sent(s: State, at: int): State {
    s.(stamps := s.stamps + [at], sends := s.sends + [at])
  }

  function Step(s: State, e: Event): State {
    match e
    case Send(ready, content, now, sentAt) =>
      if !ready then s
      else
        var next := Checked(s, content, now);
        (match CheckVerdict(s.stamps, content, now)
         case Blocked => next
         case TooFast(_) => next
         case Warn => next.(pending := true)
         case Pass => Sent(next, sentAt))
    case Confirm(now) => if s.pending then Sent(s, now).(pending := false) else s
    case Cancel => s.(pending := false)
  }

  class Chat {
    var sendTimestamps: seq<int>
    var pendingMessage: bool
    ghost var sends: seq<int>

    ghost function View(): State
      reads this
    {
      State(sendTimestamps, pendingMessage, sends)
    }

    constructor ()
      ensures View() == START
    {
      sendTimestamps := [];
      pendingMessage := false;
      sends := [];
    }

    method GuardCheck(content: Content, now: int) returns (v: Verdict)
      modifies this`sendTimestamps
      ensures v == CheckVerdict(old(sendTimestamps), content, now)
      ensures View() == Checked(old(View()), content, now)
    {
      if content == Rejected {
        return Blocked;
      }
      sendTimestamps := Recent(sendTimestamps, now);
      if |sendTimestamps| >= MAX_SENDS {
        var oldest := sendTimestamps[0];
        var waitMs := WINDOW_MS - (now - oldest);
        return TooFast(CeilSeconds(waitMs));
      }
      return if content == Doubtful then Warn else Pass;
    }

    method RegisterSend(now: int)
      modifies this`sendTimestamps, this`sends
      ensures View() == Sent(old(View()), now)
    {
      sendTimestamps := sendTimestamps + [now];
      sends := sends + [now];
    }

    /** ready: the input is not blank and no answer is awaited. */
    method HandleSend(ready: bool, content: Content, now: int, sentAt: int)
      modifies this
      ensures View() == Step(old(View()), Send(ready, content, now, sentAt))
    {
      if !ready {
        return;
      }
      var v := GuardCheck(content, now);
      if v.Blocked? || v.TooFast? {
        return;
      }
      if v.Warn? {
        pendingMessage := true;
        return;
      }
      RegisterSend(sentAt);
    }

    method HandleGuardConfirm(now: int)
      modifies this
      ensures View() == Step(old(View()), Confirm(now))
    {
      if pendingMessage {
        RegisterSend(now);
        pendingMessage := false;
      }
    }

    method HandleGuardCancel()
      modifies this
      ensures View() == Step(old(View()), Cancel)
    {
      pendingMessage := false;
    }
  }

  // ---- the list against the history ----

  ghost predicate Rising(times: seq<int>) {
    forall i, j :: 0 <= i < j < |times| ==> times[i] <= times[j]
  }

  /** How many of the first sends the guard has thrown away. */
  function Discarded(s: State): int {
    |s.sends| - |s.stamps|
  }

  /** The guard's list is the end of the history, and what it threw away is too old to count. */
  ghost predicate Inv(s: State, clock: int) {
    && Rising(s.sends) && (forall i :: 0 <= i < |s.sends| ==> s.sends[i] <= clock)
    && 0 <= Discarded(s) && s.stamps == s.sends[Discarded(s)..]
    && (forall i :: 0 <= i < Discarded(s) ==> clock - s.sends[i] >= WINDOW_MS)
  }

  lemma {:induction false} RecentIsEnd(stamps: seq<int>, now: int) returns (k: nat)
    requires Rising(stamps)
    ensures k <= |stamps| && Recent(stamps, now) == stamps[k..]
    ensures forall i :: 0 <= i < k ==> now - stamps[i] >= WINDOW_MS
    ensures k < |stamps| ==> now - stamps[k] < WINDOW_MS
  {
    if stamps == [] {
      k := 0;
    } else if now - stamps[0] < WINDOW_MS {
      AllRecent(stamps, now);
      k := 0;
    } else {
      var rest := stamps[1..];
      k := RecentIsEnd(rest, now);
      assert rest[k..] == stamps[k + 1..];
      k := k + 1;
      forall i | 0 <= i < k ensures now - stamps[i] >= WINDOW_MS {
        assert i > 0 ==> stamps[i] == rest[i - 1];
      }
    }
  }

  lemma {:induction false} AllRecent(stamps: seq<int>, now: int)
    requires Rising(stamps) && (stamps != [] ==> now - stamps[0] < WINDOW_MS)
    ensures Recent(stamps, now) == stamps
  {
    if stamps != [] {
      AllRecent(stamps[1..], now);
    }
  }

  /** Every six sends in a row span ten seconds or more. */
  ghost predicate RateKept(sends: seq<int>) {
    forall i :: MAX_SENDS <= i < |sends| ==> sends[i] - sends[i - MAX_SENDS] >= WINDOW_MS
  }

  lemma {:induction false} CheckKeeps(s: State, content: Content, clock: int, now: int)
    requires Inv(s, clock) && clock <= now
    ensures Inv(Checked(s, content, now), now)
  {
    if content != Rejected {
      var k := RecentIsEnd(s.stamps, now);
      var d := Discarded(s);
      assert s.stamps[k..] == s.sends[d + k..];
      forall i | 0 <= i < d + k ensures now - s.sends[i] >= WINDOW_MS {
        assert i >= d ==> s.sends[i] == s.stamps[i - d];
      }
    }
  }

  lemma {:induction false} SendKeeps(s: State, clock: int, at: int)
    requires Inv(s, clock) && clock <= at
    ensures Inv(Sent(s, at), at)
  {
    var next := Sent(s, at);
    assert next.stamps == next.sends[Discarded(s)..];
  }

  lemma {:induction false} RateKeptWith(sends: seq<int>, at: int)
    requires RateKept(sends)
    ensures RateKept(sends + [at]) <==> (|sends| >= MAX_SENDS ==> at - sends[|sends| - MAX_SENDS] >= WINDOW_MS)
  {
    var n := |sends|;
    var all := sends + [at];
    if n >= MAX_SENDS {
      assert all[n] == at && all[n - MAX_SENDS] == sends[n - MAX_SENDS];
      if at - sends[n - MAX_SENDS] >= WINDOW_MS {
        forall i | MAX_SENDS <= i < |all| ensures all[i] - all[i - MAX_SENDS] >= WINDOW_MS {
          if i < n {
            assert sends[i] - sends[i - MAX_SENDS] >= WINDOW_MS;
          }
        }
      }
    }
  }

  /** One more send keeps the rate exactly if the guard's rate check would let it pass at that moment. */
  lemma {:induction false} OneMoreSend(s: State, clock: int, at: int)
    requires Inv(s, clock) && clock <= at && RateKept(s.sends)
    ensures RateKept(Sent(s, at).sends) <==> |Recent(s.stamps, at)| < MAX_SENDS
  {
    hide RateKept, Recent;
    var k := RecentIsEnd(s.stamps, at);
    RateKeptWith(s.sends, at);
    SixthLast(s, clock, at, k);
  }

  /** The guard counts fewer than five sends exactly if the fifth last one is too old. */
  lemma {:induction false} SixthLast(s: State, clock: int, at: int, k: nat)
    requires Inv(s, clock) && clock <= at && k <= |s.stamps|
    requires forall i :: 0 <= i < k ==> at - s.stamps[i] >= WINDOW_MS
    requires k < |s.stamps| ==> at - s.stamps[k] < WINDOW_MS
    ensures |s.stamps| - k < MAX_SENDS
            <==> (|s.sends| >= MAX_SENDS ==> at - s.sends[|s.sends| - MAX_SENDS] >= WINDOW_MS)
  {
    var d := Discarded(s);
    var fifth := |s.sends| - MAX_SENDS;
    if fifth >= 0 {
      if fifth < d {
        assert at - s.sends[fifth] >= WINDOW_MS;
      } else if fifth < d + k {
        assert s.sends[fifth] == s.stamps[fifth - d];
      } else {
        assert s.stamps[k] == s.sends[d + k];
        assert s.sends[fifth] >= s.sends[d + k];
      }
    }
  }

  lemma {:induction false} FewerLater(stamps: seq<int>, now: int, later: int)
    requires now <= later
    ensures |Recent(Recent(stamps, now), later)| <= |Recent(stamps, now)|
  {
    FilterShortens(Recent(stamps, now), later);
  }

  lemma {:induction false} FilterShortens(stamps: seq<int>, now: int)
    ensures |Recent(stamps, now)| <= |stamps|
  {
    if stamps != [] {
      FilterShortens(stamps[1..], now);
    }
  }

  // ---- runs ----

  function TimeAfter(clock: int, e: Event): int {
    match e
    case Send(_, _, _, sentAt) => sentAt
    case Confirm(now) => now
    case Cancel => clock
  }

  /** The clock does not run backwards. */
  ghost predicate Timely(clock: int, events: seq<Event>)
    decreases |events|
  {
    events == []
    || ((match events[0]
         case Send(_, _, now, sentAt) => clock <= now <= sentAt
         case Confirm(now) => clock <= now
         case Cancel => true)
        && Timely(TimeAfter(clock, events[0]), events[1..]))
  }

  function Run(s: State, events: seq<Event>): State
    decreases |events|
  {
    if events == [] then s else Run(Step(s, events[0]), events[1..])
  }

  /** The step is no confirmation that a rate check would stop now. */
  predicate ConfirmInTime(s: State, e: Event) {
    e.Confirm? && s.pending ==> |Recent(s.stamps, e.now)| < MAX_SENDS
  }

  ghost predicate ConfirmsInTime(s: State, events: seq<Event>)
    decreases |events|
  {
    events == [] || (ConfirmInTime(s, events[0]) && ConfirmsInTime(Step(s, events[0]), events[1..]))
  }

  lemma {:induction false} StepKeeps(s: State, clock: int, e: Event)
    requires Inv(s, clock) && Timely(clock, [e])
    ensures Inv(Step(s, e), TimeAfter(clock, e))
    ensures RateKept(s.sends) ==> (RateKept(Step(s, e).sends) <==> ConfirmInTime(s, e))
    ensures s.sends <= Step(s, e).sends
  {
    hide RateKept, Recent, Inv, Rising;
    match e {
      case Send(ready, content, now, sentAt) =>
        InvLater(s, clock, sentAt);
        if ready {
          var next := Checked(s, content, now);
          CheckKeeps(s, content, clock, now);
          InvLater(next, now, sentAt);
          PendingFree(next, sentAt, true);
          if CheckVerdict(s.stamps, content, now).Pass? {
            SendKeeps(next, now, sentAt);
            FewerLater(s.stamps, now, sentAt);
            if RateKept(s.sends) {
              OneMoreSend(next, now, sentAt);
            }
          }
        }
      case Confirm(now) =>
        InvLater(s, clock, now);
        SendKeeps(s, clock, now);
        PendingFree(Sent(s, now), now, false);
        if RateKept(s.sends) {
          OneMoreSend(s, clock, now);
        }
      case Cancel =>
        PendingFree(s, clock, false);
    }
  }

  lemma {:induction false} PendingFree(s: State, clock: int, pending: bool)
    requires Inv(s, clock)
    ensures Inv(s.(pending := pending), clock)
  {
  }

  lemma {:induction false} InvLater(s: State, clock: int, later: int)
    requires Inv(s, clock) && clock <= later
    ensures Inv(s, later)
  {
  }

  lemma {:induction false} SendsOnlyGrow(s: State, clock: int, events: seq<Event>)
    requires Inv(s, clock) && Timely(clock, events)
    ensures s.sends <= Run(s, events).sends
    decreases |events|
  {
    hide Inv, Step;
    if events != [] {
      assert [events[0]][1..] == [];
      StepKeeps(s, clock, events[0]);
      SendsOnlyGrow(Step(s, events[0]), TimeAfter(clock, events[0]), events[1..]);
    }
  }

  lemma {:induction false} RateKeptOfLess(some: seq<int>, all: seq<int>)
    requires some <= all && RateKept(all)
    ensures RateKept(some)
  {
    forall i | MAX_SENDS <= i < |some| ensures some[i] - some[i - MAX_SENDS] >= WINDOW_MS {
      assert some[i] == all[i] && some[i - MAX_SENDS] == all[i - MAX_SENDS];
    }
  }

  lemma {:induction false} RunKeepsRate(s: State, clock: int, events: seq<Event>)
    requires Inv(s, clock) && Timely(clock, events) && RateKept(s.sends)
    ensures RateKept(Run(s, events).sends) <==> ConfirmsInTime(s, events)
    ensures Rising(Run(s, events).sends)
    decreases |events|
  {
    if events != [] {
      assert [events[0]][1..] == [];
      StepKeeps(s, clock, events[0]);
      var next := Step(s, events[0]);
      var time := TimeAfter(clock, events[0]);
      hide Inv, RateKept, Step, ConfirmInTime, Rising;
      if ConfirmInTime(s, events[0]) {
        RunKeepsRate(next, time, events[1..]);
      } else {
        SendsOnlyGrow(next, time, events[1..]);
        RunRises(next, time, events[1..]);
        if RateKept(Run(s, events).sends) {
          RateKeptOfLess(next.sends, Run(s, events).sends);
        }
      }
    }
  }

  lemma {:induction false} RunRises(s: State, clock: int, events: seq<Event>)
    requires Inv(s, clock) && Timely(clock, events)
    ensures Rising(Run(s, events).sends)
    decreases |events|
  {
    if events != [] {
      assert [events[0]][1..] == [];
      StepKeeps(s, clock, events[0]);
      hide Inv, Step, Rising;
      RunRises(Step(s, events[0]), TimeAfter(clock, events[0]), events[1..]);
    }
  }

  function InSpan(sends: seq<int>, from: int, to: int): seq<int> {
    if sends == [] then []
    else
      var last := |sends| - 1;
      InSpan(sends[..last], from, to) + if from <= sends[last] < to then [sends[last]] else []
  }

  /** The sends from one moment on and before another. */
  lemma {:induction false} InSpanExactly(sends: seq<int>, from: int, to: int, t: int)
    ensures multiset(InSpan(sends, from, to))[t] == if from <= t < to then multiset(sends)[t] else 0
  {
    if sends != [] {
      var last := |sends| - 1;
      InSpanExactly(sends[..last], from, to, t);
      assert sends == sends[..last] + [sends[last]];
    }
  }

  lemma {:induction false} InSpanShort(sends: seq<int>, from: int, to: int, early: nat)
    requires early <= |sends| && (forall i :: 0 <= i < early ==> sends[i] < from)
    ensures |InSpan(sends, from, to)| <= |sends| - early
  {
    if early < |sends| {
      InSpanShort(sends[..|sends| - 1], from, to, early);
    } else if sends != [] {
      InSpanShort(sends[..|sends| - 1], from, to, early - 1);
    }
  }

  lemma {:induction false} FiveInAnySpan(sends: seq<int>, from: int, to: int)
    requires Rising(sends) && RateKept(sends) && to - from <= WINDOW_MS
    ensures |InSpan(sends, from, to)| <= MAX_SENDS
  {
    if sends != [] {
      var last := |sends| - 1;
      if from <= sends[last] < to {
        var early := if last >= MAX_SENDS then last - MAX_SENDS + 1 else 0;
        forall i | 0 <= i < early ensures sends[i] < from {
          assert sends[i] <= sends[last - MAX_SENDS];
        }
        InSpanShort(sends, from, to, early);
      } else {
        RateKeptOfLess(sends[..last], sends);
        FiveInAnySpan(sends[..last], from, to);
      }
    }
  }

  /** Every run: more than five sends fall into less than ten seconds exactly if some confirmation came
      when a rate check would have stopped it, although the guard forgets old sends. */
  lemma {:induction false} RateLimit(events: seq<Event>, clock: int, from: int)
    requires Timely(clock, events)
    ensures var sends := Run(START, events).sends;
            && (RateKept(sends) <==> ConfirmsInTime(START, events))
            && (ConfirmsInTime(START, events) ==> |InSpan(sends, from, from + WINDOW_MS)| <= MAX_SENDS)
  {
    RunKeepsRate(START, clock, events);
    if RateKept(Run(START, events).sends) {
      FiveInAnySpan(Run(START, events).sends, from, from + WINDOW_MS);
    }
  }

  // ---- confirmations ----

  /** No send happens in this step. */
  ghost predicate SendsNothing(s: State, e: Event) {
    Step(s, e).sends == s.sends
  }

  ghost predicate Quiet(s: State, events: seq<Event>)
    decreases |events|
  {
    events == [] || (SendsNothing(s, events[0]) && Quiet(Step(s, events[0]), events[1..]))
  }

  lemma {:induction false} QuietStaysLow(s: State, clock: int, events: seq<Event>, later: int)
    requires Inv(s, clock) && Timely(clock, events) && Quiet(s, events)
    requires |s.stamps| < MAX_SENDS
    ensures |Run(s, events).stamps| < MAX_SENDS
    decreases |events|
  {
    if events != [] {
      assert [events[0]][1..] == [];
      StepKeeps(s, clock, events[0]);
      var next := Step(s, events[0]);
      if events[0].Send? {
        FilterShortens(s.stamps, events[0].now);
      }
      QuietStaysLow(next, TimeAfter(clock, events[0]), events[1..], later);
    }
  }

  /** A confirmation with no send between it and the check that asked for it is always in time. */
  lemma {:induction false} ConfirmRightAfterCheck(s: State, clock: int, warned: Event, between: seq<Event>, now: int)
    requires Inv(s, clock) && Timely(clock, [warned] + between + [Confirm(now)])
    requires warned.Send? && warned.ready && CheckVerdict(s.stamps, warned.content, warned.now).Warn?
    requires Quiet(Step(s, warned), between)
    ensures ConfirmInTime(Run(Step(s, warned), between), Confirm(now))
  {
    var events := [warned] + between + [Confirm(now)];
    assert events[1..] == between + [Confirm(now)];
    assert [warned][1..] == [];
    StepKeeps(s, clock, warned);
    TimelyPrefix(TimeAfter(clock, warned), between, [Confirm(now)]);
    QuietStaysLow(Step(s, warned), TimeAfter(clock, warned), between, now);
    FilterShortens(Run(Step(s, warned), between).stamps, now);
  }

  lemma {:induction false} TimelyPrefix(clock: int, a: seq<Event>, b: seq<Event>)
    requires Timely(clock, a + b)
    ensures Timely(clock, a)
    decreases |a|
  {
    if a != [] {
      assert (a + b)[1..] == a[1..] + b;
      TimelyPrefix(TimeAfter(clock, a[0]), a[1..], b);
    }
  }

  // ---- the announced wait ----

  /** While the rate was kept, a message stopped at some moment passes the rate check later, with no send
      between, exactly once the oldest send counted is ten seconds old; and the announced whole seconds
      are the least that reach that moment. */
  lemma {:induction false} WaitIsEnough(s: State, clock: int, content: Content, now: int, later: int)
    requires Inv(s, clock) && clock <= now <= later && RateKept(s.sends)
    requires CheckVerdict(s.stamps, content, now).TooFast?
    ensures var stopped := Checked(s, content, now);
            var seconds := CheckVerdict(s.stamps, content, now).waitSeconds;
            && (|Recent(stopped.stamps, later)| < MAX_SENDS <==> later - stopped.stamps[0] >= WINDOW_MS)
            && now + 1000 * (seconds - 1) < stopped.stamps[0] + WINDOW_MS <= now + 1000 * seconds
  {
    hide RateKept, Recent;
    var k := RecentIsEnd(s.stamps, now);
    var recent := s.stamps[k..];
    FiveRecent(s, clock, now, k);
    assert Rising(recent);
    hide Inv, Rising;
    var j := RecentIsEnd(recent, later);
  }

  lemma {:induction false} FiveRecent(s: State, clock: int, now: int, k: nat)
    requires Inv(s, clock) && clock <= now && RateKept(s.sends)
    requires k < |s.stamps| && now - s.stamps[k] < WINDOW_MS
    ensures |s.stamps| - k <= MAX_SENDS
  {
    var n := |s.sends| - 1;
    var d := Discarded(s);
    assert n >= MAX_SENDS ==> s.sends[n] - s.sends[n - MAX_SENDS] >= WINDOW_MS;
    assert s.sends[d + k] == s.stamps[k];
  }

  // ---- where it fails ----

  lemma {:induction false} OneBack(s: State, e: Event, rest: seq<Event>, end: State) returns (events: seq<Event>)
    requires Rising(s.stamps) && |s.stamps| <= MAX_SENDS
    requires s.stamps != [] ==> 0 <= s.stamps[0] <= s.stamps[|s.stamps| - 1] < WINDOW_MS
    requires if e.Send? then e.ready && e.content != Rejected && e.now == e.sentAt && |s.stamps| < MAX_SENDS
             else e.Confirm? && s.pending
    requires 0 <= TimeAfter(0, e) < WINDOW_MS
    requires Run(Stepped(s, e), rest) == end && Timely(TimeAfter(0, e), rest)
    ensures events == [e] + rest && Run(s, events) == end
    ensures forall clock :: clock <= TimeAfter(0, e) ==> Timely(clock, events)
  {
    events := [e] + rest;
    assert events[1..] == rest;
    AllRecent(s.stamps, TimeAfter(0, e));
  }

  function Stepped(s: State, e: Event): State {
    if e.Send? && e.content == Doubtful then s.(pending := true)
    else Sent(s, TimeAfter(0, e)).(pending := s.pending && !e.Confirm?)
  }

  lemma {:induction false} FirstForgotten(stamps: seq<int>, now: int)
    requires stamps != [] && now - stamps[0] >= WINDOW_MS
    ensures Recent(stamps, now) == Recent(stamps[1..], now)
  {
    assert [] + Recent(stamps[1..], now) == Recent(stamps[1..], now);
  }

  const SIX := [0, 1000, 2000, 3000, 4000, 5000]

  lemma {:induction false} HeldAndLate() returns (events: seq<Event>)
    ensures Run(State(SIX[..4], false, SIX[..4]), events) == State(SIX, false, SIX)
    ensures Timely(3000, events)
  {
    hide Step, Recent, Run, Timely;
    var end := State(SIX, false, SIX);
    assert SIX[..5] + [5000] == SIX && SIX[..4] + [4000] == SIX[..5];
    NoEvents(end, 5000);
    events := OneBack(State(SIX[..5], true, SIX[..5]), Confirm(5000), [], end);
    events := OneBack(State(SIX[..4], true, SIX[..4]), Send(true, Fine, 4000, 4000), events, end);
    events := OneBack(State(SIX[..4], false, SIX[..4]), Send(true, Doubtful, 4000, 4000), events, end);
  }

  lemma {:induction false} NoEvents(s: State, clock: int)
    ensures Run(s, []) == s && Timely(clock, [])
  {
  }

  lemma {:induction false} SixTooClose()
    ensures !RateKept(SIX)
  {
    assert SIX[MAX_SENDS] - SIX[0] < WINDOW_MS;
  }

  lemma {:induction false} SixAllRecent()
    ensures Recent(SIX, 5000) == SIX
  {
    hide Recent;
    AllRecent(SIX, 5000);
  }

  lemma {:induction false} FiveStillRecent()
    ensures Recent(SIX, 10000) == SIX[1..]
  {
    hide Recent;
    FirstForgotten(SIX, 10000);
    AllRecent(SIX[1..], 10000);
  }

  lemma {:induction false} SixOnTheList()
    ensures CheckVerdict(SIX, Fine, 5000) == TooFast(5)
    ensures CheckVerdict(Recent(SIX, 5000), Fine, 10000).TooFast?
  {
    hide Recent;
    SixAllRecent();
    FiveStillRecent();
  }

  /** Four messages sent, one held for confirmation, one more sent meanwhile, then the confirmation: six
      sends in five seconds; and the five seconds the guard then announces are not enough. */
  lemma {:induction false} LateConfirmBreaksRate() returns (events: seq<Event>)
    ensures var s := Run(START, events);
            && Timely(0, events) && s.sends == [0, 1000, 2000, 3000, 4000, 5000] && !RateKept(s.sends)
            && CheckVerdict(s.stamps, Fine, 5000) == TooFast(5)
            && CheckVerdict(Checked(s, Fine, 5000).stamps, Fine, 10000).TooFast?
  {
    hide Step, Recent, Run, Timely, RateKept, CheckVerdict;
    SixTooClose();
    SixOnTheList();
    SixAllRecent();
    var end := State(SIX, false, SIX);
    events := HeldAndLate();
    assert SIX[..3] + [3000] == SIX[..4] && SIX[..2] + [2000] == SIX[..3];
    assert SIX[..1] + [1000] == SIX[..2] && [] + [0] == SIX[..1];
    events := OneBack(State(SIX[..3], false, SIX[..3]), Send(true, Fine, 3000, 3000), events, end);
    events := OneBack(State(SIX[..2], false, SIX[..2]), Send(true, Fine, 2000, 2000), events, end);
    events := OneBack(State(SIX[..1], false, SIX[..1]), Send(true, Fine, 1000, 1000), events, end);
    events := OneBack(START, Send(true, Fine, 0, 0), events, end);
  }
}
