/** The daily token quota: checked before a request, charged after it. */
module TokenQuota {
  import opened Options

  const DAY := 86400
  const LIFETIME := 86400 + 3600

  function Day(t: nat): nat {
    t / DAY
  }

  /** The UTC date as a number of days. */
  lemma {:induction false} DayExactly(t: nat, d: nat)
    ensures Day(t) == d <==> d * 24 * 3600 <= t < (d + 1) * 24 * 3600
  {
  }

  datatype Counter = Counter(tokens: int, expiresAt: nat)

  /** One tenant's counters by day. */
  type Store = map<nat, Counter>

  /** GET at a moment: nothing once the clock has passed the key's expiry. */
  function Get(store: Store, day: nat, now: nat): Option<int> {
    if day in store && now <= store[day].expiresAt then Some(store[day].tokens) else None
  }

  function Used(store: Store, day: nat, now: nat): int {
    var v := Get(store, day, now);
    if v.None? then 0 else v.value
  }

  /** INCRBY and EXPIRE. */
  function Incremented(store: Store, day: nat, tokens: int, now: nat): Store {
    store[day := Counter(Used(store, day, now) + tokens, now + LIFETIME)]
  }

  function Admits(store: Store, limit: int, stamp: nat, now: nat, reachable: bool): bool {
    limit > 0 && (reachable ==> Used(store, Day(stamp), now) < limit)
  }

  /** stamp is when the date is taken, now when Redis runs the command. */
  class QuotaService {
    var store: Store

    constructor ()
      ensures store == map[]
    {
      store := map[];
    }

    method CheckQuota(maxTokens: int, stamp: nat, now: nat, reachable: bool) returns (allowed: bool)
      ensures allowed <==> Admits(store, maxTokens, stamp, now, reachable)
    {
      if maxTokens <= 0 {
        return false;
      }
      var today := Day(stamp);
      if !reachable {
        return true;
      }
      var current := Get(store, today, now);
      if current.None? {
        return true;
      }
      return current.value < maxTokens;
    }

    method IncrementUsage(tokens: int, stamp: nat, now: nat, reachable: bool)
      modifies this
      ensures store == if reachable then Incremented(old(store), Day(stamp), tokens, now) else old(store)
    {
      var today := Day(stamp);
      if !reachable {
        return;
      }
      var usage := Used(store, today, now);
      store := store[today := Counter(usage + tokens, now + LIFETIME)];
    }
  }

  // ---- one tenant's requests ----

  /** The store; the admitted requests that have not ended, with the time of their admission; and, for
      the proofs, all tokens charged to each day. */
  datatype State = State(store: Store, inFlight: map<nat, nat>, charged: map<nat, int>)

  const START := State(map[], map[], map[])

  /** A request is checked, or an admitted one ends, charging its tokens or none. */
  datatype Event = Check(id: nat, stamp: nat, now: nat, reachable: bool)
                 | End(id: nat, tokens: Option<int>, stamp: nat, now: nat, reachable: bool)

  function ChargedTo(s: State, day: nat): int {
    if day in s.charged then s.charged[day] else 0
  }

  /** _record_usage_and_increment leaves out what is not positive. */
  function Charges(e: Event): bool {
    e.End? && e.tokens.Some? && e.tokens.value > 0
  }

  function Step(limit: int, s: State, e: Event): State {
    match e
    case Check(id, stamp, now, reachable) =>
      if Admits(s.store, limit, stamp, now, reachable) then s.(inFlight := s.inFlight[id := now]) else s
    case End(id, tokens, stamp, now, reachable) =>
      var left := s.(inFlight := s.inFlight - {id});
      if Charges(e) && reachable then
        left.(store := Incremented(s.store, Day(stamp), tokens.value, now),
              charged := s.charged[Day(stamp) := ChargedTo(s, Day(stamp)) + tokens.value])
      else left
  }

  /** What may happen next: time goes on; a request is checked once; one that ends was admitted; and its
      date is taken after its admission. */
  predicate Possible(s: State, clock: nat, e: Event) {
    && clock <= e.now && e.stamp <= e.now
    && (match e
        case Check(id, _, _, _) => id !in s.inFlight
        case End(id, _, stamp, _, _) => id in s.inFlight && s.inFlight[id] <= stamp)
  }

  /** At most requests in flight at once, at most tokens each. */
  datatype Bounds = Bounds(limit: int, requests: nat, tokens: nat)

  predicate Within(b: Bounds, s: State, e: Event) {
    && |Step(b.limit, s, e).inFlight| <= b.requests
    && (Charges(e) ==> e.tokens.value <= b.tokens)
  }

  ghost predicate Proper(b: Bounds, s: State, clock: nat, events: seq<Event>)
    decreases |events|
  {
    events == []
    || (Possible(s, clock, events[0]) && Within(b, s, events[0])
        && Proper(b, Step(b.limit, s, events[0]), events[0].now, events[1..]))
  }

  function Run(limit: int, s: State, events: seq<Event>): State
    decreases |events|
  {
    if events == [] then s else Run(limit, Step(limit, s, events[0]), events[1..])
  }

  function Clock(clock: nat, events: seq<Event>): nat {
    if events == [] then clock else events[|events| - 1].now
  }

  /** What is charged is read for 25 hours, the last second included, and not after. */
  lemma {:induction false} ChargeIsRead(store: Store, day: nat, tokens: int, charged: nat, now: nat)
    ensures var before := if day in store && charged <= store[day].expiresAt then store[day].tokens else 0;
            Used(Incremented(store, day, tokens, charged), day, now)
            == if now <= charged + 25 * 3600 then before + tokens else 0
    ensures forall other :: other != day ==>
              Used(Incremented(store, day, tokens, charged), other, now) == Used(store, other, now)
  {
  }

  // ---- the counter tells the truth on its day ----

  /** For every day that has not ended: the key has not expired, and holds all that was charged. */
  ghost predicate Exact(s: State, clock: nat) {
    && (forall day :: day in s.store <==> day in s.charged)
    && (forall day :: day in s.store ==> day <= Day(clock) && s.store[day].expiresAt > (day + 1) * DAY)
    && (forall day :: day in s.store && Day(clock) <= day ==> s.store[day].tokens == s.charged[day])
  }

  lemma {:induction false} DayEnds(now: nat, day: nat)
    requires Day(now) <= day
    ensures now < (day + 1) * DAY
  {
  }

  lemma {:induction false} DayBegins(now: nat, day: nat)
    requires day <= Day(now)
    ensures day * DAY <= now
  {
  }

  lemma {:induction false} DayMonotone(a: nat, b: nat)
    requires a <= b
    ensures Day(a) <= Day(b)
  {
  }

  lemma {:induction false} UsedIsCharged(s: State, clock: nat, day: nat, now: nat)
    requires Exact(s, clock) && clock <= now && Day(now) <= day
    ensures Used(s.store, day, now) == ChargedTo(s, day)
  {
    DayMonotone(clock, now);
    DayEnds(now, day);
    hide Day;
  }

  lemma {:induction false} StepExact(limit: int, s: State, clock: nat, e: Event)
    requires Exact(s, clock) && Possible(s, clock, e)
    ensures Exact(Step(limit, s, e), e.now)
  {
    DayMonotone(clock, e.now);
    DayMonotone(e.stamp, e.now);
    DayBegins(e.now, Day(e.stamp));
    if Day(e.now) <= Day(e.stamp) {
      UsedIsCharged(s, clock, Day(e.stamp), e.now);
    }
    hide Day, Used, Get;
  }

  // ---- the bound ----

  function Earlier(inFlight: map<nat, nat>, day: nat): set<nat> {
    set id | id in inFlight && Day(inFlight[id]) <= day
  }

  function Tokens(s: State, day: nat): int {
    if day in s.store then s.store[day].tokens else 0
  }

  /** A day's counter is below the limit, or what is in flight since that day or before still fits. */
  ghost predicate Fits(b: Bounds, s: State, day: nat) {
    Tokens(s, day) < b.limit
    || Tokens(s, day) + b.tokens * |Earlier(s.inFlight, day)| <= b.limit - 1 + b.requests * b.tokens
  }

  lemma {:induction false} MulStep(m: nat, n: nat, k: nat)
    requires n <= k
    ensures m * (n + 1) == m * n + m && m * n <= m * k
  {
  }

  lemma {:induction false} EarlierAll(inFlight: map<nat, nat>, day: nat)
    ensures |Earlier(inFlight, day)| <= |inFlight|
  {
    Subset(Earlier(inFlight, day), inFlight.Keys);
    assert |inFlight.Keys| == |inFlight|;
  }

  lemma {:induction false} Subset(a: set<nat>, b: set<nat>)
    requires a <= b
    ensures |a| <= |b|
  {
    if a != {} {
      var x :| x in a;
      Subset(a - {x}, b - {x});
    }
  }

  lemma {:induction false} EarlierWithout(inFlight: map<nat, nat>, id: nat, day: nat)
    requires id in inFlight
    ensures |Earlier(inFlight - {id}, day)|
            == |Earlier(inFlight, day)| - if Day(inFlight[id]) <= day then 1 else 0
  {
    assert Earlier(inFlight - {id}, day) == Earlier(inFlight, day) - {id};
  }

  lemma {:induction false} EarlierWith(inFlight: map<nat, nat>, id: nat, now: nat, day: nat)
    requires id !in inFlight && day < Day(now)
    ensures Earlier(inFlight[id := now], day) == Earlier(inFlight, day)
  {
  }

  lemma {:induction false} UsedIsTokens(s: State, day: nat, now: nat)
    requires Tokens(s, day) >= 0
    ensures 0 <= Used(s.store, day, now) <= Tokens(s, day)
  {
  }

  lemma {:induction false} EndFits(b: Bounds, s: State, clock: nat, e: Event, day: nat)
    requires e.End? && Possible(s, clock, e) && Within(b, s, e) && |s.inFlight| <= b.requests
    requires Fits(b, s, day) && Tokens(s, day) >= 0
    ensures Fits(b, Step(b.limit, s, e), day) && Tokens(Step(b.limit, s, e), day) >= 0
  {
    var n := |Earlier(s.inFlight, day)|;
    EarlierWithout(s.inFlight, e.id, day);
    EarlierAll(s.inFlight, day);
    MulStep(b.tokens, n, b.requests);
    if n > 0 {
      MulStep(b.tokens, n - 1, b.requests);
    }
    UsedIsTokens(s, day, e.now);
    DayMonotone(s.inFlight[e.id], e.stamp);
    hide Earlier, Day, Used;
  }

  /** An admitted check leaves room on the day on which Redis answers: its counter is below the limit, or
      what is in flight then still fits. */
  ghost predicate InTime(b: Bounds, s: State, e: Event) {
    e.Check? && Admits(s.store, b.limit, e.stamp, e.now, e.reachable) ==> Fits(b, Step(b.limit, s, e), Day(e.now))
  }

  ghost predicate AllInTime(b: Bounds, s: State, events: seq<Event>)
    decreases |events|
  {
    events == [] || (InTime(b, s, events[0]) && AllInTime(b, Step(b.limit, s, events[0]), events[1..]))
  }

  /** So does every check whose date is still today's when Redis answers. */
  lemma {:induction false} SameDayInTime(b: Bounds, s: State, clock: nat, e: Event)
    requires Exact(s, clock) && clock <= e.now && e.reachable && (e.Check? ==> Day(e.stamp) == Day(e.now))
    ensures InTime(b, s, e)
  {
    UsedIsTokensToday(s, clock, e.now);
    hide Earlier, Day, Used;
  }

  lemma {:induction false} UsedIsTokensToday(s: State, clock: nat, now: nat)
    requires Exact(s, clock) && clock <= now
    ensures Used(s.store, Day(now), now) == Tokens(s, Day(now))
  {
    DayEnds(now, Day(now));
    hide Day;
  }

  lemma {:induction false} CheckFits(b: Bounds, s: State, clock: nat, e: Event, day: nat)
    requires e.Check? && Possible(s, clock, e) && Within(b, s, e) && InTime(b, s, e) && Exact(s, clock)
    requires Fits(b, s, day) && b.limit > 0
    ensures Fits(b, Step(b.limit, s, e), day)
  {
    DayMonotone(clock, e.now);
    if Admits(s.store, b.limit, e.stamp, e.now, e.reachable) {
      if day < Day(e.now) {
        EarlierWith(s.inFlight, e.id, e.now, day);
      }
      assert day > Day(e.now) ==> Tokens(s, day) == 0;
    }
    hide Earlier, Day;
  }

  lemma {:induction false} StepFits(b: Bounds, s: State, clock: nat, e: Event, day: nat)
    requires Possible(s, clock, e) && Within(b, s, e) && InTime(b, s, e) && Exact(s, clock) && b.limit > 0
    requires |s.inFlight| <= b.requests && Fits(b, s, day) && Tokens(s, day) >= 0
    ensures Fits(b, Step(b.limit, s, e), day) && Tokens(Step(b.limit, s, e), day) >= 0
  {
    if e.End? {
      EndFits(b, s, clock, e, day);
    } else {
      CheckFits(b, s, clock, e, day);
    }
  }

  lemma {:induction false} RunFits(b: Bounds, s: State, clock: nat, events: seq<Event>, day: nat)
    requires Proper(b, s, clock, events) && AllInTime(b, s, events) && Exact(s, clock) && b.limit > 0
    requires |s.inFlight| <= b.requests && Fits(b, s, day) && Tokens(s, day) >= 0
    ensures Exact(Run(b.limit, s, events), Clock(clock, events))
    ensures Fits(b, Run(b.limit, s, events), day) && Tokens(Run(b.limit, s, events), day) >= 0
    decreases |events|
  {
    if events != [] {
      var e := events[0];
      hide Fits, Tokens, Exact, InTime, Possible, Step;
      StepFits(b, s, clock, e, day);
      StepExact(b.limit, s, clock, e);
      RunFits(b, Step(b.limit, s, e), e.now, events[1..], day);
    }
  }

  function Bound(b: Bounds): int {
    b.limit - 1 + b.requests * b.tokens
  }

  lemma {:induction false} FitsIsBounded(b: Bounds, s: State, day: nat)
    requires Fits(b, s, day)
    ensures Tokens(s, day) <= Bound(b)
  {
    MulStep(b.tokens, 0, |Earlier(s.inFlight, day)|);
    MulStep(b.requests, 0, b.tokens);
    hide Earlier;
  }

  /** Any interleaving of checks and later charges, over any number of days, midnights included: no
      day's counter ever exceeds the limit by more than what was in flight; and on its own day it holds
      exactly what was charged to that day. */
  lemma {:induction false} Overshoot(b: Bounds, events: seq<Event>, day: nat)
    requires b.limit > 0 && Proper(b, START, 0, events) && AllInTime(b, START, events)
    ensures var end := Run(b.limit, START, events);
            var now := Clock(0, events);
            && 0 <= Used(end.store, day, now) <= Tokens(end, day) <= Bound(b)
            && (Day(now) <= day ==> Used(end.store, day, now) == ChargedTo(end, day))
  {
    RunFits(b, START, 0, events, day);
    var end := Run(b.limit, START, events);
    var now := Clock(0, events);
    hide Exact, Fits, Run, Proper, AllInTime, Clock, Day;
    UsedIsTokens(end, day, now);
    FitsIsBounded(b, end, day);
    if Day(now) <= day {
      UsedIsCharged(end, now, day, now);
    }
  }

  // ---- the condition is exact ----

  /** A state as runs reach it: the counters are exact, no more requests in flight than allowed, none
      admitted later than now. */
  ghost predicate Reached(b: Bounds, s: State, clock: nat) {
    && Exact(s, clock) && |s.inFlight| <= b.requests
    && (forall day :: Tokens(s, day) >= 0)
    && (forall id :: id in s.inFlight ==> s.inFlight[id] <= clock)
  }

  lemma {:induction false} StepReached(b: Bounds, s: State, clock: nat, e: Event)
    requires Reached(b, s, clock) && Possible(s, clock, e) && Within(b, s, e)
    ensures Reached(b, Step(b.limit, s, e), e.now)
  {
    var next := Step(b.limit, s, e);
    StepExact(b.limit, s, clock, e);
    forall day ensures Tokens(next, day) >= 0 {
      UsedIsTokens(s, day, e.now);
    }
    hide Exact, Day, Used;
  }

  /** Whatever comes in time, the day's counter stays within the bound. */
  ghost predicate Safe(b: Bounds, s: State, clock: nat, day: nat) {
    forall events :: Proper(b, s, clock, events) && AllInTime(b, s, events) ==>
                       Tokens(Run(b.limit, s, events), day) <= Bound(b)
  }

  lemma {:induction false} FitsIsSafe(b: Bounds, s: State, clock: nat, day: nat)
    requires Reached(b, s, clock) && b.limit > 0 && Fits(b, s, day)
    ensures Safe(b, s, clock, day)
  {
    forall events | Proper(b, s, clock, events) && AllInTime(b, s, events)
      ensures Tokens(Run(b.limit, s, events), day) <= Bound(b)
    {
      RunFits(b, s, clock, events, day);
      FitsIsBounded(b, Run(b.limit, s, events), day);
    }
  }

  /** All that is in flight ends today, each with as many tokens as a request can have. */
  lemma {:induction false} EndAll(b: Bounds, s: State, clock: nat) returns (events: seq<Event>)
    requires Reached(b, s, clock) && b.tokens > 0
    ensures Proper(b, s, clock, events) && AllInTime(b, s, events)
    ensures Tokens(Run(b.limit, s, events), Day(clock)) == Tokens(s, Day(clock)) + |s.inFlight| * b.tokens
    decreases |s.inFlight|
  {
    hide Exact, Day, Proper, AllInTime, Run, Tokens;
    if s.inFlight == map[] {
      events := [];
      ProperNone(b, s, clock);
    } else {
      var id :| id in s.inFlight;
      var e := End(id, Some(b.tokens), clock, clock, true);
      OneEnds(b, s, clock, id);
      StepReached(b, s, clock, e);
      events := EndAll(b, Step(b.limit, s, e), clock);
      MulStep(b.tokens, |s.inFlight| - 1, |s.inFlight|);
      ProperOne(b, s, clock, e, Step(b.limit, s, e), events);
      events := [e] + events;
    }
  }

  lemma {:induction false} OneEnds(b: Bounds, s: State, clock: nat, id: nat)
    requires Reached(b, s, clock) && b.tokens > 0 && id in s.inFlight
    ensures var e := End(id, Some(b.tokens), clock, clock, true);
            var next := Step(b.limit, s, e);
            && Possible(s, clock, e) && Within(b, s, e) && InTime(b, s, e)
            && |next.inFlight| == |s.inFlight| - 1
            && Tokens(next, Day(clock)) == Tokens(s, Day(clock)) + b.tokens
  {
    UsedIsTokensToday(s, clock, clock);
    hide Exact, Day, Used;
    assert s.inFlight.Keys == (s.inFlight - {id}).Keys + {id};
  }

  lemma {:induction false} EarlierIsAll(inFlight: map<nat, nat>, clock: nat)
    requires forall id :: id in inFlight ==> inFlight[id] <= clock
    ensures |Earlier(inFlight, Day(clock))| == |inFlight|
  {
    forall id | id in inFlight ensures Day(inFlight[id]) <= Day(clock) {
      DayMonotone(inFlight[id], clock);
    }
    assert Earlier(inFlight, Day(clock)) == inFlight.Keys;
  }

  lemma {:induction false} TooMuchOvershoots(b: Bounds, s: State, clock: nat) returns (events: seq<Event>)
    requires Reached(b, s, clock) && !Fits(b, s, Day(clock))
    ensures Proper(b, s, clock, events) && AllInTime(b, s, events)
    ensures Tokens(Run(b.limit, s, events), Day(clock)) > Bound(b)
  {
    hide Exact, Day, Proper, AllInTime, Run, Tokens, Earlier;
    EarlierIsAll(s.inFlight, clock);
    if b.tokens == 0 {
      events := [];
      ProperNone(b, s, clock);
    } else {
      events := EndAll(b, s, clock);
    }
  }

  lemma {:induction false} LaterDayFits(b: Bounds, s: State, clock: nat, day: nat)
    requires Exact(s, clock) && b.limit > 0 && Day(clock) < day
    ensures Fits(b, s, day)
  {
  }

  /** For a day that is not over: the counter stays within the bound, whatever comes in time, exactly if
      it is below the limit or what is in flight still fits. */
  lemma {:induction false} FitsIsExact(b: Bounds, s: State, clock: nat, day: nat)
    requires Reached(b, s, clock) && b.limit > 0 && Day(clock) <= day
    ensures Fits(b, s, day) <==> Safe(b, s, clock, day)
  {
    if Day(clock) < day {
      LaterDayFits(b, s, clock, day);
    }
    hide Reached, Fits, Day, Tokens;
    if Fits(b, s, day) {
      hide Safe;
      FitsIsSafe(b, s, clock, day);
    } else {
      hide Proper, AllInTime, Run, Bound;
      var events := TooMuchOvershoots(b, s, clock);
    }
  }

  lemma {:induction false} ClockRest(clock: nat, events: seq<Event>)
    requires events != []
    ensures Clock(clock, events) == Clock(events[0].now, events[1..])
  {
  }

  lemma {:induction false} RunReached(b: Bounds, s: State, clock: nat, events: seq<Event>)
    requires Reached(b, s, clock) && Proper(b, s, clock, events)
    ensures Reached(b, Run(b.limit, s, events), Clock(clock, events))
    decreases |events|
  {
    hide Reached, Possible, Within, Step;
    if events != [] {
      ClockRest(clock, events);
      hide Clock;
      StepReached(b, s, clock, events[0]);
      RunReached(b, Step(b.limit, s, events[0]), events[0].now, events[1..]);
    }
  }

  /** After any run, an admitted check is in time exactly if its admission leaves the day's counter safe:
      if it is not, some continuation, all of it in time, takes the counter past the bound. */
  lemma {:induction false} InTimeIsExact(b: Bounds, events: seq<Event>, e: Event)
    requires b.limit > 0 && Proper(b, START, 0, events) && e.Check?
    requires var s := Run(b.limit, START, events);
             && Possible(s, Clock(0, events), e) && Within(b, s, e)
             && Admits(s.store, b.limit, e.stamp, e.now, e.reachable)
    ensures var s := Run(b.limit, START, events);
            InTime(b, s, e) <==> Safe(b, Step(b.limit, s, e), e.now, Day(e.now))
  {
    RunReached(b, START, 0, events);
    var s := Run(b.limit, START, events);
    StepReached(b, s, Clock(0, events), e);
    hide Reached, Fits, Safe, Run, Proper, Possible, Within;
    FitsIsExact(b, Step(b.limit, s, e), e.now, Day(e.now));
  }

  lemma {:induction false} ProperOne(b: Bounds, s: State, clock: nat, e: Event, next: State, events: seq<Event>)
    requires Possible(s, clock, e) && Within(b, s, e) && Step(b.limit, s, e) == next
    requires Proper(b, next, e.now, events)
    ensures Proper(b, s, clock, [e] + events) && Run(b.limit, s, [e] + events) == Run(b.limit, next, events)
    ensures InTime(b, s, e) && AllInTime(b, next, events) ==> AllInTime(b, s, [e] + events)
  {
    hide InTime;
    assert ([e] + events)[1..] == events;
  }

  lemma {:induction false} ProperNone(b: Bounds, s: State, clock: nat)
    ensures Proper(b, s, clock, []) && Run(b.limit, s, []) == s && AllInTime(b, s, [])
  {
  }

  // ---- checks that are not in time ----

  /** The second day has just begun with so many tokens charged to it, and nothing is in flight. */
  function SecondDay(used: nat): State {
    State(if used == 0 then map[] else map[1 := Counter(used, DAY + LIFETIME)], map[],
          if used == 0 then map[] else map[1 := used])
  }

  const LATE := Check(0, DAY - 1, DAY, true)

  lemma {:induction false} LateAdmission(b: Bounds, used: nat)
    requires b.limit > 0 && b.requests > 0
    ensures Possible(SecondDay(used), DAY, LATE) && Within(b, SecondDay(used), LATE)
    ensures Step(b.limit, SecondDay(used), LATE) == SecondDay(used).(inFlight := map[0 := DAY])
  {
  }

  lemma {:induction false} LateEnd(b: Bounds, used: nat)
    requires b.tokens > 0
    ensures var e := End(0, Some(b.tokens), DAY, DAY, true);
            var s := SecondDay(used).(inFlight := map[0 := DAY]);
            Possible(s, DAY, e) && Within(b, s, e) && Step(b.limit, s, e) == SecondDay(used + b.tokens)
  {
    assert map[0 := DAY] - {0} == map[];
  }

  lemma {:induction false} LateRequests(b: Bounds, used: nat, passes: nat) returns (events: seq<Event>)
    requires b.limit > 0 && b.requests > 0 && b.tokens > 0
    ensures Proper(b, SecondDay(used), DAY, events)
    ensures Tokens(Run(b.limit, SecondDay(used), events), 1) > passes
    decreases passes + 1 - used
  {
    hide Proper, Run, Possible, Within, Step;
    if used > passes {
      events := [];
      ProperNone(b, SecondDay(used), DAY);
    } else {
      var s := SecondDay(used).(inFlight := map[0 := DAY]);
      var e := End(0, Some(b.tokens), DAY, DAY, true);
      events := LateRequests(b, used + b.tokens, passes);
      hide SecondDay, Tokens;
      LateEnd(b, used);
      ProperOne(b, s, DAY, e, SecondDay(used + b.tokens), events);
      LateAdmission(b, used);
      ProperOne(b, SecondDay(used), DAY, LATE, s, [e] + events);
      events := [LATE] + ([e] + events);
    }
  }

  lemma {:induction false} ProperEarlier(b: Bounds, s: State, clock: nat, later: nat, events: seq<Event>)
    requires Proper(b, s, later, events) && clock <= later
    ensures Proper(b, s, clock, events)
  {
  }

  /** Whatever the limit, the number of requests and their tokens: checks that took their date before
      midnight and are answered behind it take the new day's counter past any number. */
  lemma {:induction false} LateChecksOvershoot(b: Bounds, passes: nat) returns (events: seq<Event>)
    requires b.limit > 0 && b.requests > 0 && b.tokens > 0
    ensures Proper(b, START, 0, events)
    ensures Tokens(Run(b.limit, START, events), 1) > passes
  {
    events := LateRequests(b, 0, passes);
    assert SecondDay(0) == START;
    ProperEarlier(b, START, 0, DAY, events);
  }

  // ---- the bound is reached ----

  /** On the first day at time 0: used tokens charged, and the requests 0 .. open - 1 in flight. */
  function Plain(used: nat, open: nat): State {
    State(if used == 0 then map[] else map[0 := Counter(used, LIFETIME)], Opened(open),
          if used == 0 then map[] else map[0 := used])
  }

  function Opened(open: nat): map<nat, nat> {
    if open == 0 then map[] else Opened(open - 1)[open - 1 := 0]
  }

  lemma {:induction false} OpenedKeys(open: nat)
    ensures |Opened(open)| == open && forall id :: id in Opened(open) ==> id < open
  {
    if open > 0 {
      OpenedKeys(open - 1);
    }
  }

  lemma {:induction false} OpenedNext(open: nat)
    ensures Opened(open)[open := 0] == Opened(open + 1) && Opened(open + 1) - {open} == Opened(open)
    ensures open !in Opened(open) && |Opened(open)| == open
  {
    OpenedKeys(open);
  }

  lemma {:induction false} OneCheck(b: Bounds, used: nat, open: nat)
    requires used < b.limit && open < b.requests
    ensures var e := Check(open, 0, 0, true);
            Possible(Plain(used, open), 0, e) && Within(b, Plain(used, open), e) && InTime(b, Plain(used, open), e)
            && Step(b.limit, Plain(used, open), e) == Plain(used, open + 1)
  {
    OpenedNext(open);
    OpenedNext(open + 1);
    hide Opened, Earlier;
  }

  lemma {:induction false} OneEnd(b: Bounds, used: nat, open: nat, tokens: nat)
    requires open < b.requests && 0 < tokens <= b.tokens
    ensures var e := End(open, Some(tokens), 0, 0, true);
            var s := Plain(used, open + 1);
            Possible(s, 0, e) && Within(b, s, e) && InTime(b, s, e) && Step(b.limit, s, e) == Plain(used + tokens, open)
  {
    OpenedNext(open);
    assert open in Opened(open + 1) && Opened(open + 1)[open] == 0;
    hide Opened;
  }

  /** events lead properly from one state to another, all at time 0. */
  ghost predicate Leads(b: Bounds, from: State, events: seq<Event>, to: State) {
    Proper(b, from, 0, events) && Run(b.limit, from, events) == to && AllInTime(b, from, events)
  }

  lemma {:induction false} LeadsNowhere(b: Bounds, s: State)
    ensures Leads(b, s, [], s)
  {
  }

  lemma {:induction false} LeadsOn(b: Bounds, from: State, e: Event, next: State, events: seq<Event>, to: State)
    requires Possible(from, 0, e) && Within(b, from, e) && Step(b.limit, from, e) == next
    requires InTime(b, from, e) && e.now == 0 && Leads(b, next, events, to)
    ensures Leads(b, from, [e] + events, to)
  {
    hide Possible, Within, Step, InTime;
    ProperOne(b, from, 0, e, next, events);
  }

  /** All open requests end, each with as many tokens as a request can have. */
  lemma {:induction false} Burst(b: Bounds, used: nat, open: nat) returns (events: seq<Event>)
    requires open <= b.requests && 0 < b.tokens
    ensures Leads(b, Plain(used, open), events, Plain(used + open * b.tokens, 0))
    decreases open
  {
    hide Leads, Plain, Possible, Within, Step, InTime;
    if open == 0 {
      events := [];
      LeadsNowhere(b, Plain(used, 0));
    } else {
      OneEnd(b, used, open - 1, b.tokens);
      events := Burst(b, used + b.tokens, open - 1);
      MulStep(b.tokens, open - 1, open);
      LeadsOn(b, Plain(used, open), End(open - 1, Some(b.tokens), 0, 0, true), Plain(used + b.tokens, open - 1),
              events, Plain(used + open * b.tokens, 0));
      events := [End(open - 1, Some(b.tokens), 0, 0, true)] + events;
    }
  }

  /** Before that as many requests are admitted as may be in flight. */
  lemma {:induction false} Fill(b: Bounds, used: nat, open: nat) returns (events: seq<Event>)
    requires used < b.limit && open <= b.requests && 0 < b.tokens
    ensures Leads(b, Plain(used, open), events, Plain(used + b.requests * b.tokens, 0))
    decreases b.requests - open
  {
    hide Leads, Plain, Possible, Within, Step, InTime;
    if open == b.requests {
      events := Burst(b, used, open);
    } else {
      OneCheck(b, used, open);
      events := Fill(b, used, open + 1);
      LeadsOn(b, Plain(used, open), Check(open, 0, 0, true), Plain(used, open + 1),
              events, Plain(used + b.requests * b.tokens, 0));
      events := [Check(open, 0, 0, true)] + events;
    }
  }

  /** And before that single tokens are charged until one more would reach the limit. */
  lemma {:induction false} WarmUp(b: Bounds, used: nat) returns (events: seq<Event>)
    requires used < b.limit && 0 < b.requests && 0 < b.tokens
    ensures Leads(b, Plain(used, 0), events, Plain(b.limit - 1 + b.requests * b.tokens, 0))
    decreases b.limit - used
  {
    hide Leads, Plain, Possible, Within, Step, InTime;
    if used == b.limit - 1 {
      events := Fill(b, used, 0);
    } else {
      var end := Plain(b.limit - 1 + b.requests * b.tokens, 0);
      OneEnd(b, used, 0, 1);
      events := WarmUp(b, used + 1);
      LeadsOn(b, Plain(used, 1), End(0, Some(1), 0, 0, true), Plain(used + 1, 0), events, end);
      events := [End(0, Some(1), 0, 0, true)] + events;
      OneCheck(b, used, 0);
      LeadsOn(b, Plain(used, 0), Check(0, 0, 0, true), Plain(used, 1), events, end);
      events := [Check(0, 0, 0, true)] + events;
    }
  }

  /** No smaller bound would do, whatever the limit, the number of requests and their tokens. */
  lemma {:induction false} BoundIsReached(b: Bounds) returns (events: seq<Event>)
    requires b.limit > 0 && b.requests > 0 && b.tokens > 0
    ensures Proper(b, START, 0, events) && AllInTime(b, START, events)
    ensures Tokens(Run(b.limit, START, events), 0) == Bound(b)
  {
    events := WarmUp(b, 0);
    assert Plain(0, 0) == START;
    MulStep(b.requests, 0, b.tokens);
    assert b.requests * b.tokens > 0;
  }

  /** A tenant without a positive limit is never admitted, whether Redis answers or not. */
  lemma {:induction false} NoLimitNoRequests(limit: int, events: seq<Event>)
    requires limit <= 0
    ensures Run(limit, START, events).inFlight == map[]
  {
    NoneInFlight(limit, START, events);
  }

  lemma {:induction false} NoneInFlight(limit: int, s: State, events: seq<Event>)
    requires limit <= 0 && s.inFlight == map[]
    ensures Run(limit, s, events).inFlight == map[]
    decreases |events|
  {
    if events != [] {
      var next := Step(limit, s, events[0]);
      assert next.inFlight == map[];
      NoneInFlight(limit, next, events[1..]);
    }
  }
}
