/** When a get answers with the latest value set for its key: exactly as long as no event is harmful. */
module ClassifierCacheLatest {
  import opened Options
  import opened ClassifierCache
  import opened ClassifierCacheRuns

  // ---- the value a key should have ----

  /** That of the latest cacheable set, or nothing since the end of a flush. */
  function LatestStep(st: State, before: Option<Response>, e: Event, key: string): Option<Response> {
    match e
    case BeginSet(id, k, value) => if k == key && id !in st.waiting && !Stale(value) then Some(value) else before
    case ClearLru => None
    case _ => before
  }

  function Latest(c: Config, st: State, before: Option<Response>, events: seq<Event>, key: string): Option<Response>
    decreases |events|
  {
    if events == [] then before
    else Latest(c, Step(c, st, events[0]), LatestStep(st, before, events[0], key), events[1..], key)
  }

  /** It answers as the latest value does, with the source marked. */
  predicate Right(r: Response, latest: Option<Response>) {
    latest.Some? && FromCache(r) == FromCache(latest.value)
  }

  predicate RightIf(r: Option<Response>, latest: Option<Response>) {
    Usable(r) ==> Right(r.value, latest)
  }

  predicate RightWaiting(w: Waiting, key: string, latest: Option<Response>) {
    w.key == key ==>
      match w
      case Reading(_) => true
      case Answered(_, raw) => RightIf(raw, latest)
      case Writing(_, value) => Right(value, latest)
  }

  ghost predicate AllRight(st: State, key: string, latest: Option<Response>) {
    forall id :: id in st.waiting ==> RightWaiting(st.waiting[id], key, latest)
  }

  predicate Writes(st: State, id: nat, key: string) {
    IsWriting(st, id) && st.waiting[id].key == key
  }

  /** What Redis holds for the key is right, or about to be overwritten. */
  ghost predicate RedisRight(c: Config, st: State, key: string, latest: Option<Response>) {
    c.connected ==> RightIf(InRedis(st.redis, key), latest) || exists id :: Writes(st, id, key)
  }

  /** Wherever a value is kept for the key, or on its way, it is right. */
  ghost predicate Good(c: Config, st: State, key: string, latest: Option<Response>) {
    && (forall e :: e in st.lru && e.0 == key ==> Right(e.1, latest))
    && AllRight(st, key, latest)
    && RedisRight(c, st, key, latest)
  }

  /** The events that do no harm to a key. A set must not overtake a call that waits with another value of
      the key, and its write must not fail while Redis holds another one; a get must not read Redis before
      a set of the key has been written there; a flush must not end while anything of the key is left in
      Redis or on its way. Events of other keys, expiry, and gets that fail are harmless. */
  ghost predicate Harmless(c: Config, st: State, e: Event, key: string, latest: Option<Response>) {
    match e
    case BeginSet(id, k, value) => k == key && id !in st.waiting && !Stale(value) ==> AllRight(st, key, Some(value))
    case RedisSet(id, ok) =>
      Writes(st, id, key) && !ok && c.connected ==>
        RightIf(InRedis(st.redis, key), latest) || exists other :: other != id && Writes(st, other, key)
    case RedisGet(id, ok) =>
      IsReading(st, id) && st.waiting[id].key == key && ok ==> RightIf(InRedis(st.redis, key), latest)
    case ClearLru => AllRight(st, key, None) && (c.connected ==> !Usable(InRedis(st.redis, key)))
    case _ => true
  }

  // ---- one event ----

  lemma {:induction false} LruRight(c: Config, st: State, e: Event, key: string, latest: Option<Response>)
    requires Proper(st.lru) && Good(c, st, key, latest)
    ensures forall entry :: entry in Step(c, st, e).lru && entry.0 == key
                            ==> Right(entry.1, LatestStep(st, latest, e, key))
  {
    forall entry | entry in Step(c, st, e).lru && entry.0 == key
      ensures Right(entry.1, LatestStep(st, latest, e, key))
    {
      NextOrigin(c, st, e, entry);
      if e.BeginSet? && e.key == key && e.id !in st.waiting && !Stale(e.value) {
        SetOrigin(st.lru, key, e.value, c.lruMax, entry);
      } else if e.FinishGet? && entry !in st.lru {
        assert RightWaiting(st.waiting[e.id], key, latest);
      }
    }
  }

  lemma {:induction false} WritesStay(c: Config, st: State, e: Event, key: string, id: nat)
    requires Writes(st, id, key) && !(e.RedisSet? && e.id == id)
    ensures Writes(Step(c, st, e), id, key)
  {
  }

  lemma {:induction false} RestAfterSet(c: Config, st: State, e: Event, key: string, latest: Option<Response>)
    requires e.BeginSet? && AllRight(st, key, latest) && RedisRight(c, st, key, latest)
    ensures var next, now := Step(c, st, e), LatestStep(st, latest, e, key);
            Harmless(c, st, e, key, latest) <==> AllRight(next, key, now) && RedisRight(c, next, key, now)
  {
    var next, now := Step(c, st, e), LatestStep(st, latest, e, key);
    if e.id !in st.waiting && !Stale(e.value) {
      assert forall other :: other in st.waiting ==> other in next.waiting && next.waiting[other] == st.waiting[other];
      if e.key == key {
        assert c.connected ==> Writes(next, e.id, key);
      } else if c.connected && !RightIf(InRedis(st.redis, key), latest) {
        var id :| Writes(st, id, key);
        WritesStay(c, st, e, key, id);
      }
    }
  }

  lemma {:induction false} RestAfterWrite(c: Config, st: State, e: Event, key: string, latest: Option<Response>)
    requires e.RedisSet? && AllRight(st, key, latest) && RedisRight(c, st, key, latest)
    ensures var next := Step(c, st, e);
            Harmless(c, st, e, key, latest) <==> AllRight(next, key, latest) && RedisRight(c, next, key, latest)
  {
    var next := Step(c, st, e);
    assert forall id :: Writes(next, id, key) ==> Writes(st, id, key);
    assert !Writes(next, e.id, key);
    if Writes(st, e.id, key) {
      assert RightWaiting(st.waiting[e.id], key, latest);
      if !e.ok && c.connected && !RightIf(InRedis(st.redis, key), latest) {
        if other :| other != e.id && Writes(st, other, key) {
          WritesStay(c, st, e, key, other);
        }
      }
    } else if c.connected && !RightIf(InRedis(st.redis, key), latest) {
      var id :| Writes(st, id, key);
      WritesStay(c, st, e, key, id);
    }
  }

  lemma {:induction false} RestAfterOthers(c: Config, st: State, e: Event, key: string, latest: Option<Response>)
    requires e.BeginGet? || e.FinishGet? || e.Drop?
    requires AllRight(st, key, latest) && RedisRight(c, st, key, latest)
    ensures AllRight(Step(c, st, e), key, latest) && RedisRight(c, Step(c, st, e), key, latest)
  {
    if c.connected && !RightIf(InRedis(st.redis, key), latest) {
      var id :| Writes(st, id, key);
      WritesStay(c, st, e, key, id);
    }
  }

  lemma {:induction false} RestAfterRead(c: Config, st: State, e: Event, key: string, latest: Option<Response>)
    requires e.RedisGet? && AllRight(st, key, latest) && RedisRight(c, st, key, latest)
    ensures var next := Step(c, st, e);
            Harmless(c, st, e, key, latest) <==> AllRight(next, key, latest) && RedisRight(c, next, key, latest)
  {
    var next := Step(c, st, e);
    if c.connected && !RightIf(InRedis(st.redis, key), latest) {
      var id :| Writes(st, id, key);
      WritesStay(c, st, e, key, id);
    }
    if IsReading(st, e.id) && st.waiting[e.id].key == key && e.ok {
      assert next.waiting[e.id] == Answered(key, InRedis(st.redis, key));
      assert RightWaiting(next.waiting[e.id], key, latest) <==> RightIf(InRedis(st.redis, key), latest);
    }
  }

  lemma {:induction false} RestAfterFlush(c: Config, st: State, key: string)
    ensures Harmless(c, st, ClearLru, key, None)
            <==> AllRight(Step(c, st, ClearLru), key, None) && RedisRight(c, Step(c, st, ClearLru), key, None)
  {
    var next := Step(c, st, ClearLru);
    assert AllRight(st, key, None) <==> AllRight(next, key, None);
    if AllRight(next, key, None) {
      forall id ensures !Writes(next, id, key) {
        assert id in next.waiting ==> RightWaiting(next.waiting[id], key, None);
      }
    }
  }

  /** An event keeps everything right exactly if it is harmless. */
  lemma {:induction false} StepGoodExactly(c: Config, st: State, e: Event, key: string, latest: Option<Response>)
    requires Proper(st.lru) && Good(c, st, key, latest)
    ensures Harmless(c, st, e, key, latest) <==> Good(c, Step(c, st, e), key, LatestStep(st, latest, e, key))
  {
    LruRight(c, st, e, key, latest);
    hide AllRight, RedisRight, Right, Proper;
    match e {
      case BeginSet(_, _, _) => RestAfterSet(c, st, e, key, latest);
      case RedisSet(_, _) => RestAfterWrite(c, st, e, key, latest);
      case RedisGet(_, _) => RestAfterRead(c, st, e, key, latest);
      case ClearLru => RestAfterFlush(c, st, key);
      case _ => RestAfterOthers(c, st, e, key, latest);
    }
  }

  // ---- runs ----

  ghost predicate AllHarmless(c: Config, st: State, events: seq<Event>, key: string, latest: Option<Response>)
    decreases |events|
  {
    events == []
    || (Harmless(c, st, events[0], key, latest)
        && AllHarmless(c, Step(c, st, events[0]), events[1..], key, LatestStep(st, latest, events[0], key)))
  }

  lemma {:induction false} GoodAnswers(c: Config, st: State, e: Event, key: string, latest: Option<Response>)
    requires Good(c, st, key, latest)
    ensures AnswerFor(st, e, key).Some? ==> latest.Some? && AnswerFor(st, e, key) == Some(FromCache(latest.value))
  {
    if e.BeginGet? && Lookup(st.lru, key).Some? {
      LookupIn(st.lru, key);
    } else if e.FinishGet? && IsAnswered(st, e.id) {
      assert RightWaiting(st.waiting[e.id], key, latest);
    }
  }

  /** After every run of events that are harmless to a key, calls that overlap and calls that fail among
      them, a get of the key answers nothing or the latest value set for it since the last flush, marked
      as coming from the cache. */
  lemma {:induction false} GetReturnsLatest(c: Config, st: State, events: seq<Event>, e: Event, key: string,
                                            latest: Option<Response>)
    requires Proper(st.lru) && Good(c, st, key, latest) && AllHarmless(c, st, events, key, latest)
    ensures var end, now := Run(c, st, events), Latest(c, st, latest, events, key);
            && Good(c, end, key, now)
            && (AnswerFor(end, e, key).Some? ==> now.Some? && AnswerFor(end, e, key) == Some(FromCache(now.value)))
    decreases |events|
  {
    if events == [] {
      GoodAnswers(c, st, e, key, latest);
    } else {
      hide Proper, Good, Harmless, Step, LatestStep, AnswerFor;
      StepGoodExactly(c, st, events[0], key, latest);
      StepProper(c, st, events[0]);
      GetReturnsLatest(c, Step(c, st, events[0]), events[1..], e, key, LatestStep(st, latest, events[0], key));
    }
  }

  /** What Redis holds for the key when a process starts, unless stale, is its value then. */
  function Found(redis: map<string, Response>, key: string): Option<Response> {
    if Usable(InRedis(redis, key)) then InRedis(redis, key) else None
  }

  lemma {:induction false} StartGood(c: Config, redis: map<string, Response>, key: string)
    ensures Good(c, State([], redis, map[]), key, Found(redis, key))
  {
  }

  /** From the start of a process on, whatever Redis held. */
  lemma {:induction false} StartedGetReturnsLatest(c: Config, redis: map<string, Response>, events: seq<Event>,
                                                   e: Event, key: string)
    requires AllHarmless(c, State([], redis, map[]), events, key, Found(redis, key))
    ensures var start := State([], redis, map[]);
            var now := Latest(c, start, Found(redis, key), events, key);
            var r := AnswerFor(Run(c, start, events), e, key);
            r.Some? ==> now.Some? && r == Some(FromCache(now.value))
  {
    StartGood(c, redis, key);
    hide Good, AllHarmless, Run, Latest, AnswerFor;
    GetReturnsLatest(c, State([], redis, map[]), events, e, key, Found(redis, key));
  }

  /** No call of the key is waiting. */
  ghost predicate Quiet(st: State, key: string) {
    forall id :: id in st.waiting ==> st.waiting[id].key != key
  }

  /** For calls of the key that overlap with no other call of it: a get is harmless, failing or not; a set
      exactly if Redis takes it, or holds no other answer; and the end of a flush exactly if Redis no
      longer holds the key. */
  lemma {:induction false} AloneHarmless(c: Config, st: State, key: string, latest: Option<Response>, id: nat,
                                         value: Response, ok: bool)
    requires Good(c, st, key, latest) && Quiet(st, key) && id !in st.waiting
    ensures AllHarmless(c, st, [BeginGet(id, key), RedisGet(id, ok)] + [FinishGet(id)], key, latest)
    ensures AllHarmless(c, st, [BeginSet(id, key, value), RedisSet(id, ok)] + [], key, latest)
            <==> Stale(value) || !c.connected || ok || RightIf(InRedis(st.redis, key), Some(value))
    ensures Harmless(c, st, ClearLru, key, latest) <==> !c.connected || !Usable(InRedis(st.redis, key))
  {
    assert forall other :: !Writes(st, other, key);
    var e, f := BeginGet(id, key), RedisGet(id, ok);
    HarmlessTwo(c, st, e, f, [FinishGet(id)], key, latest);
    HarmlessOne(c, Step(c, Step(c, st, e), f), FinishGet(id), key, latest);
    var g, h := BeginSet(id, key, value), RedisSet(id, ok);
    HarmlessTwo(c, st, g, h, [], key, latest);
    hide AllHarmless;
    NoneHarmless(c, Step(c, Step(c, st, g), h), key, LatestStep(st, latest, g, key));
    AloneSet(c, st, key, latest, id, value, ok);
  }

  lemma {:induction false} AloneSet(c: Config, st: State, key: string, latest: Option<Response>, id: nat,
                                    value: Response, ok: bool)
    requires Good(c, st, key, latest) && Quiet(st, key) && id !in st.waiting
    ensures var g, h := BeginSet(id, key, value), RedisSet(id, ok);
            Harmless(c, st, g, key, latest) && Harmless(c, Step(c, st, g), h, key, LatestStep(st, latest, g, key))
            <==> Stale(value) || !c.connected || ok || RightIf(InRedis(st.redis, key), Some(value))
  {
    var next := Step(c, st, BeginSet(id, key, value));
    assert forall other :: other in st.waiting ==> !Writes(st, other, key);
    assert forall other :: other in st.waiting ==> st.waiting[other] == next.waiting[other];
    assert forall other :: Writes(next, other, key) ==> other == id;
  }

  lemma {:induction false} HarmlessOne(c: Config, st: State, e: Event, key: string, latest: Option<Response>)
    ensures AllHarmless(c, st, [e], key, latest) <==> Harmless(c, st, e, key, latest)
  {
    hide Harmless, Step, LatestStep;
    assert [e][1..] == [];
    NoneHarmless(c, Step(c, st, e), key, LatestStep(st, latest, e, key));
  }

  lemma {:induction false} NoneHarmless(c: Config, st: State, key: string, latest: Option<Response>)
    ensures AllHarmless(c, st, [], key, latest)
  {
  }

  lemma {:induction false} HarmlessTwo(c: Config, st: State, e: Event, f: Event, rest: seq<Event>, key: string,
                                       latest: Option<Response>)
    ensures var s1, l1 := Step(c, st, e), LatestStep(st, latest, e, key);
            AllHarmless(c, st, [e, f] + rest, key, latest)
            <==> Harmless(c, st, e, key, latest) && Harmless(c, s1, f, key, l1)
                 && AllHarmless(c, Step(c, s1, f), rest, key, LatestStep(s1, l1, f, key))
  {
    hide Harmless, Step, LatestStep;
    var s1, l1 := Step(c, st, e), LatestStep(st, latest, e, key);
    assert ([e, f] + rest)[1..] == [f] + rest && ([f] + rest)[1..] == rest;
    assert AllHarmless(c, st, [e, f] + rest, key, latest)
           <==> Harmless(c, st, e, key, latest) && AllHarmless(c, s1, [f] + rest, key, l1);
  }

  // ---- the condition is exact ----

  /** A state as runs reach it: the LRU holds the most recently touched keys, each once; nothing stale;
      and without a connection no call waits. */
  ghost predicate Reached(c: Config, st: State, touches: seq<string>) {
    && c.lruMax >= 1 && Proper(st.lru) && NoStale(st) && MostRecent(c, st, touches)
    && (!c.connected ==> st.waiting == map[])
  }

  lemma {:induction false} StepReached(c: Config, st: State, e: Event, touches: seq<string>)
    requires Reached(c, st, touches)
    ensures Reached(c, Step(c, st, e), TouchStep(st, e, touches))
  {
    hide Proper, NoStale, MostRecent;
    StepProper(c, st, e);
    StepNoStale(c, st, e);
    StepLru(c, st, e, touches);
  }

  lemma {:induction false} RunReached(c: Config, st: State, events: seq<Event>, touches: seq<string>)
    requires Reached(c, st, touches)
    ensures Reached(c, Run(c, st, events), Touches(c, st, events, touches))
    decreases |events|
  {
    if events != [] {
      hide Reached, Step, TouchStep;
      StepReached(c, st, events[0], touches);
      RunReached(c, Step(c, st, events[0]), events[1..], TouchStep(st, events[0], touches));
    }
  }

  function Pluses(n: nat): (r: string)
    ensures |r| == n && forall i :: 0 <= i < n ==> r[i] == '+'
  {
    if n == 0 then "" else Pluses(n - 1) + "+"
  }

  /** strip leaves a plus sign alone. */
  predicate PlusStays(p: KeyParts) {
    !p.isSpace('+')
  }

  /** The key of the same text for another tenant: plus signs, more of them than the tenant has characters. */
  function OtherKey(c: Config, text: string, tenant: Option<string>, n: nat): string {
    CacheKey(c.parts, text, if n == 0 then tenant else Some(Pluses(|Tenant(c.parts, tenant)| + n)))
  }

  lemma {:induction false} PlusesTenant(p: KeyParts, n: nat)
    requires PlusStays(p) && n > 0
    ensures Tenant(p, Some(Pluses(n))) == Pluses(n)
  {
    var s := Pluses(n);
    assert s != "" && StripLeft(p, s) == s && StripRight(p, s) == s;
  }

  lemma {:induction false} OtherKeysDiffer(c: Config, text: string, tenant: Option<string>, m: nat, n: nat)
    requires PlusStays(c.parts) && m != n
    ensures OtherKey(c, text, tenant, m) != OtherKey(c, text, tenant, n)
  {
    hide Tenant, CacheKey;
    var own := |Tenant(c.parts, tenant)|;
    if m > 0 {
      PlusesTenant(c.parts, own + m);
    }
    if n > 0 {
      PlusesTenant(c.parts, own + n);
    }
    TenantsApart(c.parts, text, if m == 0 then tenant else Some(Pluses(own + m)),
                 if n == 0 then tenant else Some(Pluses(own + n)));
  }

  lemma {:induction false} OwnKey(c: Config, text: string, tenant: Option<string>)
    ensures OtherKey(c, text, tenant, 0) == CacheKey(c.parts, text, tenant)
  {
  }

  /** A call whose number no waiting call has. */
  lemma {:induction false} FreshId(ids: set<nat>) returns (id: nat)
    ensures forall other :: other in ids ==> other < id
  {
    if ids == {} {
      id := 0;
    } else {
      var x :| x in ids;
      id := FreshId(ids - {x});
      id := if id > x then id else x + 1;
      assert ids == (ids - {x}) + {x};
    }
  }

  /** Sets for n other tenants, none of which Redis takes. */
  function OtherSets(c: Config, text: string, tenant: Option<string>, value: Response, id: nat, n: nat): seq<Event> {
    if n == 0 then []
    else [BeginSet(id, OtherKey(c, text, tenant, n), value), RedisSet(id, false)]
         + OtherSets(c, text, tenant, value, id, n - 1)
  }

  function OtherKeys(c: Config, text: string, tenant: Option<string>, n: nat): seq<string> {
    if n == 0 then [] else [OtherKey(c, text, tenant, n)] + OtherKeys(c, text, tenant, n - 1)
  }

  lemma {:induction false} NotAmong(c: Config, text: string, tenant: Option<string>, n: nat, m: nat)
    requires PlusStays(c.parts) && (m == 0 || m > n)
    ensures OtherKey(c, text, tenant, m) !in OtherKeys(c, text, tenant, n)
  {
    hide OtherKey;
    if n > 0 {
      NotAmong(c, text, tenant, n - 1, m);
      OtherKeysDiffer(c, text, tenant, m, n);
    }
  }

  lemma {:induction false} OtherKeysCount(c: Config, text: string, tenant: Option<string>, n: nat)
    requires PlusStays(c.parts)
    ensures |set k | k in OtherKeys(c, text, tenant, n)| == n
  {
    hide OtherKey;
    if n > 0 {
      var first, rest := OtherKey(c, text, tenant, n), OtherKeys(c, text, tenant, n - 1);
      OtherKeysCount(c, text, tenant, n - 1);
      NotAmong(c, text, tenant, n - 1, n);
      assert (set k | k in [first] + rest) == {first} + (set k | k in rest);
    }
  }

  lemma {:induction false} OneOtherSet(c: Config, st: State, touches: seq<string>, key: string, other: string,
                                       value: Response, id: nat)
    requires Reached(c, st, touches) && c.connected && !Stale(value) && id !in st.waiting && other != key
    ensures var e, f := BeginSet(id, other, value), RedisSet(id, false);
            var end := Step(c, Step(c, st, e), f);
            && end.redis == st.redis && end.waiting == st.waiting && Reached(c, end, touches + [other])
            && forall latest :: LatestStep(Step(c, st, e), LatestStep(st, latest, e, key), f, key) == latest
  {
    var e, f := BeginSet(id, other, value), RedisSet(id, false);
    var s1 := Step(c, st, e);
    assert TouchStep(s1, f, touches + [other]) == touches + [other];
    hide Reached;
    StepReached(c, st, e, touches);
    StepReached(c, s1, f, touches + [other]);
    assert Step(c, s1, f).waiting == st.waiting;
  }

  /** What such sets leave: Redis and the waiting calls as they were, the touches longer. */
  lemma {:induction false} OtherSetsRun(c: Config, st: State, touches: seq<string>, text: string,
                                        tenant: Option<string>,
                                        value: Response, id: nat, n: nat)
    requires PlusStays(c.parts) && Reached(c, st, touches) && c.connected && !Stale(value) && id !in st.waiting
    ensures var events := OtherSets(c, text, tenant, value, id, n);
            var end := Run(c, st, events);
            && end.redis == st.redis && end.waiting == st.waiting
            && Reached(c, end, touches + OtherKeys(c, text, tenant, n))
            && forall latest :: Latest(c, st, latest, events, CacheKey(c.parts, text, tenant)) == latest
    decreases n
  {
    hide Reached, OtherKey, Step, LatestStep, Run, Latest, Stale, PlusStays;
    var key := CacheKey(c.parts, text, tenant);
    if n == 0 {
      assert touches + [] == touches;
      NothingRun(c, st, key);
    } else {
      var other := OtherKey(c, text, tenant, n);
      OwnKey(c, text, tenant);
      OtherKeysDiffer(c, text, tenant, 0, n);
      var e, f := BeginSet(id, other, value), RedisSet(id, false);
      OneOtherSet(c, st, touches, key, other, value, id);
      OtherSetsRun(c, Step(c, Step(c, st, e), f), touches + [other], text, tenant, value, id, n - 1);
      assert (touches + [other]) + OtherKeys(c, text, tenant, n - 1) == touches + OtherKeys(c, text, tenant, n);
      RunBehind(c, st, e, f, OtherSets(c, text, tenant, value, id, n - 1), key);
    }
  }

  lemma {:induction false} NothingRun(c: Config, st: State, key: string)
    ensures Run(c, st, []) == st && forall latest :: Latest(c, st, latest, [], key) == latest
  {
  }

  lemma {:induction false} RunBehind(c: Config, st: State, e: Event, f: Event, rest: seq<Event>, key: string)
    ensures Run(c, st, [e, f] + rest) == Run(c, Step(c, Step(c, st, e), f), rest)
    ensures forall latest :: Latest(c, st, latest, [e, f] + rest, key)
                             == Latest(c, Step(c, Step(c, st, e), f),
                                       LatestStep(Step(c, st, e), LatestStep(st, latest, e, key), f, key), rest, key)
  {
    hide Step, LatestStep;
    assert ([e, f] + rest)[1..] == [f] + rest && ([f] + rest)[1..] == rest;
    assert Run(c, st, [e, f] + rest) == Run(c, Step(c, st, e), [f] + rest);
    forall latest
      ensures Latest(c, st, latest, [e, f] + rest, key)
              == Latest(c, Step(c, Step(c, st, e), f),
                        LatestStep(Step(c, st, e), LatestStep(st, latest, e, key), f, key), rest, key)
    {
      assert Latest(c, st, latest, [e, f] + rest, key)
             == Latest(c, Step(c, st, e), LatestStep(st, latest, e, key), [f] + rest, key);
    }
  }

  lemma {:induction false} RunConcat(c: Config, st: State, a: seq<Event>, b: seq<Event>, latest: Option<Response>,
                                     key: string)
    ensures Run(c, st, a + b) == Run(c, Run(c, st, a), b)
    ensures Latest(c, st, latest, a + b, key) == Latest(c, Run(c, st, a), Latest(c, st, latest, a, key), b, key)
    decreases |a|
  {
    hide Step, LatestStep;
    if a == [] {
      assert a + b == b;
    } else {
      assert (a + b)[1..] == a[1..] + b;
      RunConcat(c, Step(c, st, a[0]), a[1..], b, LatestStep(st, latest, a[0], key), key);
    }
  }

  lemma {:induction false} LatestTwo(c: Config, st: State, e: Event, f: Event, latest: Option<Response>, key: string)
    ensures Latest(c, st, latest, [e, f], key)
            == LatestStep(Step(c, st, e), LatestStep(st, latest, e, key), f, key)
  {
    hide Step, LatestStep;
    assert [e, f][1..] == [f] && [f][1..] == [];
    var s1, l1 := Step(c, st, e), LatestStep(st, latest, e, key);
    assert Latest(c, st, latest, [e, f], key) == Latest(c, s1, l1, [f], key);
    assert Latest(c, Step(c, s1, f), LatestStep(s1, l1, f, key), [], key) == LatestStep(s1, l1, f, key);
  }

  lemma {:induction false} LastTouch(touches: seq<string>, key: string)
      returns (before: seq<string>, later: seq<string>)
    requires key in touches
    ensures touches == before + [key] + later && key !in later
  {
    var last := |touches| - 1;
    if touches[last] == key {
      before, later := touches[..last], [];
    } else {
      before, later := LastTouch(touches[..last], key);
      later := later + [touches[last]];
    }
  }

  lemma {:induction false} NotHeld(touches: seq<string>, others: seq<string>, key: string, n: nat)
    requires n >= 1 && key !in others && |set k | k in others| >= n
    ensures key !in LastOf(Recency(touches + others), n)
  {
    hide Recency;
    if key in touches {
      var before, later := LastTouch(touches, key);
      assert touches + others == before + [key] + (later + others);
      Survives(before, key, later + others, n);
      Smaller(set k | k in others, set k | k in later + others);
    } else {
      RecencyKeys(touches + others);
      var all := Recency(touches + others);
      assert all == all[..|all| - |LastOf(all, n)|] + LastOf(all, n);
      assert key !in all;
    }
  }

  lemma {:induction false} Smaller(a: set<string>, b: set<string>)
    requires a <= b
    ensures |a| <= |b|
  {
    if a != {} {
      var x :| x in a;
      Smaller(a - {x}, b - {x});
    }
  }

  lemma {:induction false} KeysLookup(es: Entries, key: string)
    ensures Lookup(es, key).Some? <==> key in KeysOf(es)
  {
    if es != [] {
      KeysLookup(es[1..], key);
    }
  }

  /** Enough sets for other tenants drive a key out of the LRU. */
  lemma {:induction false} Evicted(c: Config, st: State, touches: seq<string>, text: string, tenant: Option<string>)
    requires PlusStays(c.parts) && Reached(c, st, touches + OtherKeys(c, text, tenant, c.lruMax))
    ensures Lookup(st.lru, CacheKey(c.parts, text, tenant)) == None
  {
    var key, others := CacheKey(c.parts, text, tenant), OtherKeys(c, text, tenant, c.lruMax);
    OwnKey(c, text, tenant);
    NotAmong(c, text, tenant, c.lruMax, 0);
    OtherKeysCount(c, text, tenant, c.lruMax);
    NotHeld(touches, others, key, c.lruMax);
    KeysLookup(st.lru, key);
  }

  /** A get that finds nothing in the LRU, alone. */
  lemma {:induction false} ReadThrough(c: Config, st: State, id: nat, key: string)
    requires c.connected && id !in st.waiting && Lookup(st.lru, key) == None && Usable(InRedis(st.redis, key))
    ensures var end := Step(c, Step(c, st, BeginGet(id, key)), RedisGet(id, true));
            AnswerFor(end, FinishGet(id), key) == Some(FromCache(st.redis[key]))
  {
  }

  /** What Redis holds for a key can always come to light, whatever the LRU holds: behind sets for other
      tenants a get answers it. */
  lemma {:induction false} OldAnswer(c: Config, st: State, touches: seq<string>, text: string, tenant: Option<string>,
                                     latest: Option<Response>) returns (events: seq<Event>, e: Event)
    requires PlusStays(c.parts) && Reached(c, st, touches) && c.connected
    requires Usable(InRedis(st.redis, CacheKey(c.parts, text, tenant)))
    ensures var key := CacheKey(c.parts, text, tenant);
            && Latest(c, st, latest, events, key) == latest
            && AnswerFor(Run(c, st, events), e, key) == Some(FromCache(st.redis[key]))
  {
    var key := CacheKey(c.parts, text, tenant);
    var id := FreshId(st.waiting.Keys);
    var value := st.redis[key];
    var sets := OtherSets(c, text, tenant, value, id, c.lruMax);
    var evicted := Run(c, st, sets);
    OtherSetsRun(c, st, touches, text, tenant, value, id, c.lruMax);
    Evicted(c, evicted, touches, text, tenant);
    ReadThrough(c, evicted, id, key);
    hide Reached, AnswerFor, PlusStays;
    var f, g := BeginGet(id, key), RedisGet(id, true);
    RunTwo(c, evicted, f, g);
    LatestTwo(c, evicted, f, g, latest, key);
    hide Step, Run, Latest;
    RunConcat(c, st, sets, [f, g], latest, key);
    events, e := sets + [f, g], FinishGet(id);
  }

  lemma {:induction false} LookupOnly(es: Entries, entry: (string, Response))
    requires Proper(es) && entry in es
    ensures Lookup(es, entry.0) == Some(entry.1)
  {
    if es[0] != entry {
      ProperRest(es);
      assert es == [es[0]] + es[1..];
      LookupOnly(es[1..], entry);
    }
  }

  /** An answer that is not that of the latest value. */
  predicate Wrong(r: Option<Response>, latest: Option<Response>) {
    r.Some? && !(latest.Some? && r.value == FromCache(latest.value))
  }

  lemma {:induction false} WrongEntryShows(c: Config, st: State, touches: seq<string>, key: string,
                                           latest: Option<Response>, entry: (string, Response)) returns (e: Event)
    requires Reached(c, st, touches) && entry in st.lru && entry.0 == key && !Right(entry.1, latest)
    ensures Wrong(AnswerFor(st, e, key), latest)
  {
    LookupOnly(st.lru, entry);
    var id := FreshId(st.waiting.Keys);
    e := BeginGet(id, key);
  }

  /** Whatever is wrong somewhere can come to light without another set of the key or another flush. */
  lemma {:induction false} NotGoodShows(c: Config, st: State, touches: seq<string>, text: string,
                                        tenant: Option<string>,
                                        latest: Option<Response>) returns (events: seq<Event>, e: Event)
    requires PlusStays(c.parts) && Reached(c, st, touches)
    requires !Good(c, st, CacheKey(c.parts, text, tenant), latest)
    ensures var key := CacheKey(c.parts, text, tenant);
            Latest(c, st, latest, events, key) == latest && Wrong(AnswerFor(Run(c, st, events), e, key), latest)
  {
    var key := CacheKey(c.parts, text, tenant);
    events := [];
    if entry :| entry in st.lru && entry.0 == key && !Right(entry.1, latest) {
      e := WrongEntryShows(c, st, touches, key, latest, entry);
    } else if !AllRight(st, key, latest) {
      var id :| id in st.waiting && !RightWaiting(st.waiting[id], key, latest);
      if st.waiting[id].Answered? {
        e := FinishGet(id);
      } else {
        events, e := WrongWriteShows(c, st, touches, text, tenant, latest, id);
      }
    } else {
      events, e := OldAnswer(c, st, touches, text, tenant, latest);
    }
  }

  lemma {:induction false} WrongWriteShows(c: Config, st: State, touches: seq<string>, text: string,
                                           tenant: Option<string>, latest: Option<Response>, id: nat)
      returns (events: seq<Event>, e: Event)
    requires PlusStays(c.parts) && Reached(c, st, touches) && Writes(st, id, CacheKey(c.parts, text, tenant))
    requires !Right(st.waiting[id].value, latest)
    ensures var key := CacheKey(c.parts, text, tenant);
            Latest(c, st, latest, events, key) == latest && Wrong(AnswerFor(Run(c, st, events), e, key), latest)
  {
    var key := CacheKey(c.parts, text, tenant);
    var f := RedisSet(id, true);
    var next := Step(c, st, f);
    StepReached(c, st, f, touches);
    assert TouchStep(st, f, touches) == touches;
    assert c.connected && Usable(InRedis(next.redis, key));
    hide Reached, PlusStays;
    events, e := OldAnswer(c, next, touches, text, tenant, latest);
    assert ([f] + events)[1..] == events;
    events := [f] + events;
  }

  /** After any harmful event a get can answer wrongly, with no further set of the key and no further
      flush: with GetReturnsLatest, the answers stay right exactly as long as nothing harmful happens. */
  lemma {:induction false} HarmfulShows(c: Config, st: State, touches: seq<string>, text: string,
                                        tenant: Option<string>,
                                        latest: Option<Response>, harm: Event)
      returns (events: seq<Event>, e: Event)
    requires PlusStays(c.parts) && Reached(c, st, touches) && Good(c, st, CacheKey(c.parts, text, tenant), latest)
    requires !Harmless(c, st, harm, CacheKey(c.parts, text, tenant), latest)
    ensures var key := CacheKey(c.parts, text, tenant);
            var next, now := Step(c, st, harm), LatestStep(st, latest, harm, key);
            Latest(c, next, now, events, key) == now && Wrong(AnswerFor(Run(c, next, events), e, key), now)
  {
    var key := CacheKey(c.parts, text, tenant);
    StepReached(c, st, harm, touches);
    StepGoodExactly(c, st, harm, key, latest);
    hide Reached, Good, Harmless, PlusStays;
    events, e := NotGoodShows(c, Step(c, st, harm), TouchStep(st, harm, touches), text, tenant,
                              LatestStep(st, latest, harm, key));
  }

  // ---- two ways to an old answer ----

  const EMPTY := State([], map[], map[])

  lemma {:induction false} StartReached(c: Config, redis: map<string, Response>)
    requires c.lruMax >= 1
    ensures Reached(c, State([], redis, map[]), [])
  {
    assert KeysOf([]) == [] && LastOf(Recency([]), c.lruMax) == [];
  }

  /** A set that Redis takes, and a second one that it does not: in Redis the first value is left. */
  lemma {:induction false} TwoSets(c: Config, key: string, a: Response, b: Response)
    requires c.lruMax >= 1 && c.connected && !Stale(a) && !Stale(b)
    ensures var events := [BeginSet(0, key, a), RedisSet(0, true)] + [BeginSet(0, key, b), RedisSet(0, false)];
            && Run(c, EMPTY, events).redis == map[key := a]
            && Latest(c, EMPTY, None, events, key) == Some(b)
            && Reached(c, Run(c, EMPTY, events), Touches(c, EMPTY, events, []))
  {
    var first, second := [BeginSet(0, key, a), RedisSet(0, true)], [BeginSet(0, key, b), RedisSet(0, false)];
    StartReached(c, map[]);
    hide Reached;
    RunReached(c, EMPTY, first + second, []);
    hide Touches;
    RunConcat(c, EMPTY, first, second, None, key);
    RunTwo(c, EMPTY, first[0], first[1]);
    LatestTwo(c, EMPTY, first[0], first[1], None, key);
    var middle := Run(c, EMPTY, first);
    hide Run, Latest;
    assert middle.redis == map[key := a] && middle.waiting == map[];
    RunTwo(c, middle, second[0], second[1]);
    LatestTwo(c, middle, second[0], second[1], Some(a), key);
  }

  /** Whatever the size of the LRU: after a set whose Redis write fails, a get can answer the older value. */
  lemma {:induction false} FailedWriteServesOld(c: Config, text: string, tenant: Option<string>, a: Response,
                                                b: Response)
      returns (events: seq<Event>, e: Event)
    requires PlusStays(c.parts) && c.lruMax >= 1 && c.connected && !Stale(a) && !Stale(b)
    requires FromCache(a) != FromCache(b)
    ensures var key := CacheKey(c.parts, text, tenant);
            && Latest(c, EMPTY, None, events, key) == Some(b)
            && AnswerFor(Run(c, EMPTY, events), e, key) == Some(FromCache(a))
            && Wrong(Some(FromCache(a)), Some(b))
  {
    var key := CacheKey(c.parts, text, tenant);
    var sets := [BeginSet(0, key, a), RedisSet(0, true)] + [BeginSet(0, key, b), RedisSet(0, false)];
    TwoSets(c, key, a, b);
    hide Reached, PlusStays, Run, Latest, AnswerFor;
    events, e := OldAnswer(c, Run(c, EMPTY, sets), Touches(c, EMPTY, sets, []), text, tenant, Some(b));
    RunConcat(c, EMPTY, sets, events, None, key);
    events := sets + events;
  }

  /** Every call succeeds, but a get is overtaken: it has read the old value from Redis and not yet stored
      it when a set of the key runs from beginning to end. The old value comes to lie over the new one
      in the LRU, and later gets answer it. */
  lemma {:induction false} OvertakenGetServesOld(c: Config, key: string, a: Response, b: Response)
      returns (events: seq<Event>, e: Event)
    requires c.lruMax >= 1 && c.connected && !Stale(a) && !Stale(b) && FromCache(a) != FromCache(b)
    ensures events == [BeginGet(0, key), RedisGet(0, true), BeginSet(1, key, b)] + [RedisSet(1, true), FinishGet(0)]
    ensures var start := State([], map[key := a], map[]);
            && Latest(c, start, Some(a), events, key) == Some(b)
            && AnswerFor(Run(c, start, events), e, key) == Some(FromCache(a))
            && Wrong(Some(FromCache(a)), Some(b))
  {
    var start := State([], map[key := a], map[]);
    var first, second := [BeginGet(0, key), RedisGet(0, true), BeginSet(1, key, b)], [RedisSet(1, true), FinishGet(0)];
    events, e := first + second, BeginGet(0, key);
    var s1 := start.(waiting := map[0 := Reading(key)]);
    var s2 := start.(waiting := map[0 := Answered(key, Some(a))]);
    var s3 := State([(key, b)], map[key := a], map[0 := Answered(key, Some(a)), 1 := Writing(key, b)]);
    var s4 := State([(key, b)], map[key := b], map[0 := Answered(key, Some(a))]);
    var s5 := State([(key, a)], map[key := b], map[]);
    assert Step(c, start, first[0]) == s1;
    assert Step(c, s1, first[1]) == s2;
    assert Step(c, s2, first[2]) == s3;
    assert Step(c, s3, second[0]) == s4;
    assert Step(c, s4, second[1]) == s5;
    hide Step;
    RunThree(c, start, first[0], first[1], first[2]);
    RunTwo(c, s3, second[0], second[1]);
    LatestThree(c, start, first[0], first[1], first[2], Some(a), key);
    LatestTwo(c, s3, second[0], second[1], Some(b), key);
    RunConcat(c, start, first, second, Some(a), key);
  }

  lemma {:induction false} LatestThree(c: Config, st: State, e: Event, f: Event, g: Event, latest: Option<Response>,
                                       key: string)
    ensures Latest(c, st, latest, [e, f, g], key)
            == (var s1, l1 := Step(c, st, e), LatestStep(st, latest, e, key);
                LatestStep(Step(c, s1, f), LatestStep(s1, l1, f, key), g, key))
  {
    hide Step, LatestStep;
    assert [e, f, g][1..] == [f, g];
    var s1, l1 := Step(c, st, e), LatestStep(st, latest, e, key);
    assert Latest(c, st, latest, [e, f, g], key) == Latest(c, s1, l1, [f, g], key);
    LatestTwo(c, s1, f, g, l1, key);
  }

  // ---- what is kept is answered ----

  /** The response as a get answers it. */
  ghost predicate Marked(r: Option<Response>, value: Response) {
    && r.Some? && r.value.source == Cache && r.value.intent == value.intent && r.value.confidence == value.confidence
    && r.value.taxonomy == value.taxonomy && r.value.model == value.model
  }

  lemma {:induction false} LookupLast(es: Entries, key: string, value: Response)
    requires Lookup(es, key) == None
    ensures Lookup(es + [(key, value)], key) == Some(value)
  {
    if es == [] {
      assert (es + [(key, value)])[0] == (key, value);
    } else {
      assert (es + [(key, value)])[1..] == es[1..] + [(key, value)];
      LookupLast(es[1..], key, value);
    }
  }

  lemma {:induction false} LookupNone(es: Entries, key: string)
    requires forall e :: e in es ==> e.0 != key
    ensures Lookup(es, key) == None
  {
    if es != [] {
      assert es == [es[0]] + es[1..];
      LookupNone(es[1..], key);
    }
  }

  lemma {:induction false} KeptIsFound(c: Config, lru: Entries, key: string, value: Response)
    requires c.lruMax >= 1 && Proper(lru)
    ensures Lookup(Kept(c, lru, key, value), key) == Some(value)
  {
    WithoutProper(lru, key);
    var all := Without(lru, key);
    var stored := all + [(key, value)];
    var cut := if |stored| > c.lruMax then |stored| - c.lruMax else 0;
    assert Kept(c, lru, key, value) == all[cut..] + [(key, value)];
    forall e | e in all[cut..] ensures e.0 != key {
      assert e in all;
    }
    LookupNone(all[cut..], key);
    LookupLast(all[cut..], key, value);
  }

  /** A response is refused exactly if it is that of a failed model run; any other that is set is what the
      next get of its key answers, whether Redis takes it or not. */
  lemma {:induction false} SetThenGet(c: Config, st: State, id: nat, next: nat, key: string, value: Response, ok: bool)
    requires c.lruMax >= 1 && Proper(st.lru) && id !in st.waiting && next !in st.waiting
    ensures var events := [BeginSet(id, key, value), RedisSet(id, ok)];
            if value.intent == "unclassified" && value.confidence <= 0.0 then Run(c, st, events) == st
            else Marked(AnswerFor(Run(c, st, events), BeginGet(next, key), key), value)
  {
    var e, f := BeginSet(id, key, value), RedisSet(id, ok);
    RunTwo(c, st, e, f);
    if !(value.intent == "unclassified" && value.confidence <= 0.0) {
      KeptIsFound(c, st.lru, key, value);
    }
  }

  /** And what Redis has taken is answered by the next get also when the LRU has lost it, unless it is that of
      a failed model run; from then on the LRU has it again. */
  lemma {:induction false} SetThenReload(c: Config, st: State, id: nat, next: nat, key: string, value: Response)
    requires c.connected && c.lruMax >= 1 && id !in st.waiting && next !in st.waiting
    requires value.intent != "unclassified" || value.confidence > 0.0
    ensures var events := [BeginSet(id, key, value), RedisSet(id, true), ClearLru];
            var again := [BeginGet(next, key), RedisGet(next, true), FinishGet(next)];
            var emptied := Run(c, st, events);
            && Marked(FirstAnswer(c, emptied, again, key), value)
            && Lookup(Run(c, emptied, again).lru, key) == Some(value)
  {
    RunThree(c, st, BeginSet(id, key, value), RedisSet(id, true), ClearLru);
    var emptied := Run(c, st, [BeginSet(id, key, value), RedisSet(id, true), ClearLru]);
    assert emptied.lru == [] && emptied.redis == st.redis[key := value] && emptied.waiting == st.waiting;
    RunThree(c, emptied, BeginGet(next, key), RedisGet(next, true), FinishGet(next));
    AnswerOfThree(c, emptied, BeginGet(next, key), RedisGet(next, true), FinishGet(next), key);
    KeptIsFound(c, [], key, value);
  }
}
