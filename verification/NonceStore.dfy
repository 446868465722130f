/** Signed gateway requests: the timestamp window and the store of used nonces. */
module NonceStore {
  import opened Options

  /** The settings, and what this model takes as given: how Python's int reads a header, None standing
      for ValueError, and which signatures verify. */
  datatype Config = Config(skew: int, parse: string -> Option<int>, verifies: Request -> bool)

  /** What becomes of the call to Redis: an answer, or an exception with the command done or not. */
  datatype Redis = Answers | Raises(done: bool)

  /** at and setAt are milliseconds: when the clock is read and when Redis runs the command. None and the
      empty string are a missing header. */
  datatype Request = Request(verb: string, path: string, timestamp: string, nonce: string, signature: string,
                             at: nat, setAt: nat, redis: Redis)

  datatype Outcome = Accepted | Forbidden | Unavailable

  /** Nonces and when they expire, in milliseconds. */
  type Store = map<string, nat>

  function Ttl(c: Config): nat {
    if c.skew * 2 > 60 then c.skew * 2 else 60
  }

  function Abs(x: int): nat {
    if x < 0 then -x else x
  }

  /** All checks before the nonce. */
  predicate Fresh(c: Config, r: Request) {
    && r.timestamp != "" && r.nonce != "" && r.signature != ""
    && c.parse(r.timestamp).Some?
    && Abs(r.at / 1000 - c.parse(r.timestamp).value) <= c.skew
    && c.verifies(r)
  }

  /** SET nonce nx ex, as Redis runs it: a key lives through its last millisecond. */
  predicate Free(store: Store, nonce: string, now: nat) {
    nonce !in store || now > store[nonce]
  }

  function SetNonce(c: Config, store: Store, r: Request): Store {
    if Free(store, r.nonce, r.setAt) then store[r.nonce := r.setAt + 1000 * Ttl(c)] else store
  }

  function StoreAfter(c: Config, store: Store, r: Request): Store {
    if Fresh(c, r) && (r.redis.Answers? || r.redis.done) then SetNonce(c, store, r) else store
  }

  function Verdict(c: Config, store: Store, r: Request): Outcome {
    if !Fresh(c, r) then Forbidden
    else if r.redis.Raises? then Unavailable
    else if Free(store, r.nonce, r.setAt) then Accepted
    else Forbidden
  }

  class Gateway {
    var store: Store

    constructor ()
      ensures store == map[]
    {
      store := map[];
    }

    /** set(key, "1", nx=True, ex=...), the answer of a call that raises being of no use. */
    method SetIfAbsent(c: Config, r: Request) returns (wasSet: bool)
      modifies this
      ensures wasSet == Free(old(store), r.nonce, r.setAt)
      ensures store == SetNonce(c, old(store), r)
    {
      wasSet := r.nonce !in store || r.setAt > store[r.nonce];
      if wasSet {
        var ttl := if c.skew * 2 > 60 then c.skew * 2 else 60;
        store := store[r.nonce := r.setAt + 1000 * ttl];
      }
    }

    /** Accepted exactly if signed, on time, answered for, and with a nonce that is new or has expired; and
        then the nonce is stored. A request refused with 403 leaves the store as it was. */
    method VerifyGatewayHmac(c: Config, r: Request) returns (o: Outcome)
      modifies this
      ensures o == Verdict(c, old(store), r) && store == StoreAfter(c, old(store), r)
      ensures o == Accepted <==>
                && c.verifies(r) && r.signature != "" && r.timestamp != "" && r.nonce != ""
                && (exists ts :: c.parse(r.timestamp) == Some(ts) && ts - c.skew <= r.at / 1000 <= ts + c.skew)
                && r.redis == Answers
                && (r.nonce in old(store) ==> old(store)[r.nonce] < r.setAt)
      ensures o == Accepted ==> store == old(store)[r.nonce := r.setAt + 1000 * Ttl(c)]
      ensures o == Unavailable ==>
                store == if r.redis.done && (r.nonce in old(store) ==> old(store)[r.nonce] < r.setAt)
                         then old(store)[r.nonce := r.setAt + 1000 * Ttl(c)] else old(store)
      ensures o == Forbidden ==> store == old(store)
    {
      AcceptedExactly(c, store, r);
      if r.timestamp == "" || r.nonce == "" || r.signature == "" {
        return Forbidden;
      }
      var ts := c.parse(r.timestamp);
      if ts.None? {
        return Forbidden;
      }
      var now := r.at / 1000;
      if Abs(now - ts.value) > c.skew {
        return Forbidden;
      }
      if !c.verifies(r) {
        return Forbidden;
      }
      if r.redis.Raises? {
        if r.redis.done {
          var _ := SetIfAbsent(c, r);
        }
        return Unavailable;
      }
      var wasSet := SetIfAbsent(c, r);
      if !wasSet {
        return Forbidden;
      }
      return Accepted;
    }
  }

  // ---- what is asked of a request ----

  /** The headers are there, the timestamp is a number within the skew, and the signature verifies. */
  ghost predicate SignedInTime(c: Config, r: Request) {
    && c.verifies(r) && r.signature != "" && r.timestamp != "" && r.nonce != ""
    && exists ts :: c.parse(r.timestamp) == Some(ts) && ts - c.skew <= r.at / 1000 <= ts + c.skew
  }

  lemma {:induction false} FreshExactly(c: Config, r: Request)
    ensures Fresh(c, r) <==> SignedInTime(c, r)
  {
    if c.parse(r.timestamp).Some? {
      var ts := c.parse(r.timestamp).value;
      assert Abs(r.at / 1000 - ts) <= c.skew <==> ts - c.skew <= r.at / 1000 <= ts + c.skew;
    }
  }

  /** The three outcomes: 403 without the conditions or with a nonce that is in use, 503 if Redis raises, and
      accepted otherwise. */
  lemma {:induction false} AcceptedExactly(c: Config, store: Store, r: Request)
    ensures Verdict(c, store, r) == Accepted
            <==> SignedInTime(c, r) && r.redis == Answers && (r.nonce in store ==> store[r.nonce] < r.setAt)
    ensures Verdict(c, store, r) == Unavailable <==> SignedInTime(c, r) && r.redis != Answers
  {
    FreshExactly(c, r);
  }

  /** The lifetime of a nonce: the larger of twice the skew and a minute. */
  lemma {:induction false} TtlIsMax(c: Config)
    ensures Ttl(c) >= 60 && Ttl(c) >= 2 * c.skew && (Ttl(c) == 60 || Ttl(c) == 2 * c.skew)
  {
  }

  // ---- runs ----

  /** Requests in the order in which Redis serves them; each reads the clock before. */
  ghost predicate Timely(requests: seq<Request>) {
    && (forall i :: 0 <= i < |requests| ==> requests[i].at <= requests[i].setAt)
    && (forall i, j :: 0 <= i < j < |requests| ==> requests[i].setAt <= requests[j].setAt)
  }

  function Outcomes(c: Config, store: Store, requests: seq<Request>): (o: seq<Outcome>)
    ensures |o| == |requests|
    decreases |requests|
  {
    if requests == [] then []
    else [Verdict(c, store, requests[0])] + Outcomes(c, StoreAfter(c, store, requests[0]), requests[1..])
  }

  ghost predicate AcceptedAt(c: Config, store: Store, requests: seq<Request>, i: nat) {
    i < |requests| && Outcomes(c, store, requests)[i] == Accepted
  }

  lemma {:induction false} AcceptedLater(c: Config, store: Store, requests: seq<Request>, i: nat)
    requires 0 < i && AcceptedAt(c, store, requests, i)
    ensures AcceptedAt(c, StoreAfter(c, store, requests[0]), requests[1..], i - 1)
  {
  }

  lemma {:induction false} AcceptedIsFresh(c: Config, store: Store, requests: seq<Request>, i: nat)
    requires AcceptedAt(c, store, requests, i)
    ensures Fresh(c, requests[i])
    decreases i
  {
    if i > 0 {
      AcceptedLater(c, store, requests, i);
      AcceptedIsFresh(c, StoreAfter(c, store, requests[0]), requests[1..], i - 1);
    }
  }

  ghost function StoreBefore(c: Config, store: Store, requests: seq<Request>, i: nat): Store
    requires i <= |requests|
    decreases i
  {
    if i == 0 then store else StoreBefore(c, StoreAfter(c, store, requests[0]), requests[1..], i - 1)
  }

  /** In every run, from any store: a request is accepted exactly if it is signed and in time, Redis answers,
      and its nonce is new or has expired. */
  lemma {:induction false} RunAcceptsExactly(c: Config, store: Store, requests: seq<Request>, i: nat)
    requires i < |requests|
    ensures AcceptedAt(c, store, requests, i)
            <==> && SignedInTime(c, requests[i]) && requests[i].redis == Answers
                 && (requests[i].nonce in StoreBefore(c, store, requests, i)
                     ==> StoreBefore(c, store, requests, i)[requests[i].nonce] < requests[i].setAt)
    decreases i
  {
    hide SignedInTime, Verdict;
    if i == 0 {
      AcceptedExactly(c, store, requests[0]);
    } else {
      RunAcceptsExactly(c, StoreAfter(c, store, requests[0]), requests[1..], i - 1);
    }
  }

  /** A nonce is in the store only for a request before, signed and in time, that brought it; until it has
      expired, it stays. */
  lemma {:induction false} StoredOnlyBySigned(c: Config, requests: seq<Request>, i: nat, nonce: string) returns (j: nat)
    requires i <= |requests| && nonce in StoreBefore(c, map[], requests, i)
    ensures j < i && requests[j].nonce == nonce && SignedInTime(c, requests[j])
    ensures StoreBefore(c, map[], requests, i)[nonce] == requests[j].setAt + 1000 * Ttl(c)
  {
    StoreLast(c, map[], requests, i);
    var before := StoreBefore(c, map[], requests, i - 1);
    FreshExactly(c, requests[i - 1]);
    if nonce in before && StoreBefore(c, map[], requests, i)[nonce] == before[nonce] {
      j := StoredOnlyBySigned(c, requests, i - 1, nonce);
    } else {
      j := i - 1;
    }
  }

  lemma {:induction false} StoreLast(c: Config, store: Store, requests: seq<Request>, i: nat)
    requires i <= |requests|
    ensures i > 0 ==> StoreBefore(c, store, requests, i)
                      == StoreAfter(c, StoreBefore(c, store, requests, i - 1), requests[i - 1])
    ensures i == 0 ==> StoreBefore(c, store, requests, i) == store
    decreases i
  {
    hide StoreAfter;
    if i > 1 {
      StoreLast(c, StoreAfter(c, store, requests[0]), requests[1..], i - 1);
    }
  }

  /** A stored nonce is not accepted again before it expires; meanwhile nothing shortens its life. */
  lemma {:induction false} BlockedUntil(c: Config, store: Store, requests: seq<Request>, j: nat, until: nat)
    requires AcceptedAt(c, store, requests, j)
    requires requests[j].nonce in store && store[requests[j].nonce] >= until
    ensures requests[j].setAt > until
    decreases j
  {
    if j > 0 {
      AcceptedLater(c, store, requests, j);
      BlockedUntil(c, StoreAfter(c, store, requests[0]), requests[1..], j - 1, until);
    }
  }

  /** Two acceptances of a nonce are more than the store's lifetime apart. */
  lemma {:induction false} NonceSpacing(c: Config, store: Store, requests: seq<Request>, i: nat, j: nat)
    requires i < j && AcceptedAt(c, store, requests, i) && AcceptedAt(c, store, requests, j)
    requires requests[i].nonce == requests[j].nonce
    ensures requests[j].setAt > requests[i].setAt + 1000 * Ttl(c)
    decreases i
  {
    AcceptedLater(c, store, requests, j);
    if i == 0 {
      BlockedUntil(c, StoreAfter(c, store, requests[0]), requests[1..], j - 1, requests[0].setAt + 1000 * Ttl(c));
    } else {
      AcceptedLater(c, store, requests, i);
      NonceSpacing(c, StoreAfter(c, store, requests[0]), requests[1..], i - 1, j - 1);
    }
  }

  /** Two acceptances of a timestamp read clocks at most twice the skew apart. */
  lemma {:induction false} TimestampWindow(c: Config, store: Store, requests: seq<Request>, i: nat, j: nat)
    requires AcceptedAt(c, store, requests, i) && AcceptedAt(c, store, requests, j)
    requires requests[i].timestamp == requests[j].timestamp
    ensures Abs(requests[i].at / 1000 - requests[j].at / 1000) <= 2 * c.skew
  {
    AcceptedIsFresh(c, store, requests, i);
    AcceptedIsFresh(c, store, requests, j);
  }

  ghost predicate SamePair(a: Request, b: Request) {
    a.timestamp == b.timestamp && a.nonce == b.nonce
  }

  /** If Redis runs every command within delay milliseconds of the clock reading, a signed pair of
      timestamp and nonce accepted twice leaves this much room. */
  lemma {:induction false} ReplayNeedsRoom(c: Config, store: Store, requests: seq<Request>, i: nat, j: nat, delay: nat)
    requires i < j && AcceptedAt(c, store, requests, i) && AcceptedAt(c, store, requests, j)
    requires SamePair(requests[i], requests[j]) && Timely(requests)
    requires requests[j].setAt <= requests[j].at + delay
    ensures (2 * c.skew + 1) * 1000 + delay > 1000 * Ttl(c) + 1
  {
    NonceSpacing(c, store, requests, i, j);
    TimestampWindow(c, store, requests, i, j);
    assert requests[i].at <= requests[i].setAt;
  }

  ghost predicate Instant(requests: seq<Request>) {
    forall i :: 0 <= i < |requests| ==> requests[i].setAt == requests[i].at
  }

  /** On one clock, a signed pair is accepted a second time only if the first acceptance fell into the
      first second of its window, the second into the last, and the skew is 30 seconds or more. */
  lemma {:induction false} ReplayOnlyAtExtremes(c: Config, store: Store, requests: seq<Request>, i: nat, j: nat)
    requires i < j && AcceptedAt(c, store, requests, i) && AcceptedAt(c, store, requests, j)
    requires SamePair(requests[i], requests[j]) && Timely(requests) && Instant(requests)
    ensures c.parse(requests[i].timestamp).Some? && c.skew >= 30
    ensures var ts := c.parse(requests[i].timestamp).value;
            requests[i].at / 1000 == ts - c.skew && requests[j].at / 1000 == ts + c.skew
  {
    NonceSpacing(c, store, requests, i, j);
    AcceptedIsFresh(c, store, requests, i);
    AcceptedIsFresh(c, store, requests, j);
    assert requests[i].setAt == requests[i].at && requests[j].setAt == requests[j].at;
  }

  /** Redis runs every command at most so many milliseconds after the clock is read. */
  ghost predicate Delayed(requests: seq<Request>, delay: nat) {
    forall i :: 0 <= i < |requests| ==> requests[i].setAt <= requests[i].at + delay
  }

  /** A signed pair is never accepted three times, if Redis is less than a minute late. */
  lemma {:induction false} NeverThrice(c: Config, store: Store, requests: seq<Request>, i: nat, j: nat, k: nat)
    requires i < j < k < |requests| && AcceptedAt(c, store, requests, i) && AcceptedAt(c, store, requests, j)
    requires SamePair(requests[i], requests[j]) && SamePair(requests[j], requests[k])
    requires Timely(requests) && Delayed(requests, 59002)
    ensures !AcceptedAt(c, store, requests, k)
  {
    assert requests[i].at <= requests[i].setAt && requests[k].setAt <= requests[k].at + 59002;
    if AcceptedAt(c, store, requests, k) {
      NonceSpacing(c, store, requests, i, j);
      NonceSpacing(c, store, requests, j, k);
      TimestampWindow(c, store, requests, i, k);
    }
  }

  // ---- how often, with Redis late ----

  /** All of a list of requests carry the pair of the first one and are accepted. */
  ghost predicate Repeated(c: Config, store: Store, requests: seq<Request>, pair: Request) {
    forall i :: 0 <= i < |requests| ==> SamePair(pair, requests[i]) && AcceptedAt(c, store, requests, i)
  }

  /** The least time from one acceptance of a pair to the next. */
  function Gap(c: Config): nat {
    1000 * Ttl(c) + 1
  }

  /** n acceptances of a pair, among any others, are at least n - 1 lifetimes apart. */
  lemma {:induction false} Spread(c: Config, store: Store, requests: seq<Request>, at: seq<nat>, pair: Request)
    requires at != [] && PicksPair(c, store, requests, at, pair)
    ensures requests[at[|at| - 1]].setAt >= requests[at[0]].setAt + (|at| - 1) * Gap(c)
  {
    if |at| > 1 {
      var front := at[..|at| - 1];
      assert PicksPair(c, store, requests, front, pair);
      Spread(c, store, requests, front, pair);
      NonceSpacing(c, store, requests, at[|at| - 2], at[|at| - 1]);
      assert (|at| - 1) * Gap(c) == (|front| - 1) * Gap(c) + Gap(c);
    }
  }

  /** at are places of a run, in order, at which the pair is accepted. */
  ghost predicate PicksPair(c: Config, store: Store, requests: seq<Request>, at: seq<nat>, pair: Request) {
    && (forall i :: 0 <= i < |at| ==> AcceptedAt(c, store, requests, at[i]) && SamePair(pair, requests[at[i]]))
    && (forall i, j :: 0 <= i < j < |at| ==> at[i] < at[j])
  }

  /** n - 1 gaps must fit between the first and the last moment of the window, the delay included. */
  predicate Fits(c: Config, n: nat, delay: nat) {
    c.skew >= 0 && (n - 1) * Gap(c) < (2 * c.skew + 1) * 1000 + delay
  }

  /** However often a pair is accepted in a run, so many acceptances fit. */
  lemma {:induction false} TimesFit(c: Config, store: Store, requests: seq<Request>, at: seq<nat>, pair: Request,
                                    delay: nat)
    requires at != [] && PicksPair(c, store, requests, at, pair) && Timely(requests) && Delayed(requests, delay)
    ensures Fits(c, |at|, delay)
  {
    var first, last := at[0], at[|at| - 1];
    Spread(c, store, requests, at, pair);
    AcceptedIsFresh(c, store, requests, first);
    TimestampWindow(c, store, requests, first, last);
    assert requests[first].at <= requests[first].setAt && requests[last].setAt <= requests[last].at + delay;
  }

  /** The request again, as early as the store lets it pass, its clock read no later than its window allows. */
  function Again(c: Config, pair: Request, ts: nat, i: nat): Request
    requires 0 <= c.skew <= ts
  {
    var moment := 1000 * (ts - c.skew) + i * Gap(c);
    var end := 1000 * (ts + c.skew) + 999;
    pair.(at := if moment < end then moment else end, setAt := moment, redis := Answers)
  }

  function Copies(c: Config, pair: Request, ts: nat, from: nat, n: nat): (r: seq<Request>)
    requires 0 <= c.skew <= ts
    ensures |r| == n
    decreases n
  {
    if n == 0 then [] else [Again(c, pair, ts, from)] + Copies(c, pair, ts, from + 1, n - 1)
  }

  lemma {:induction false} CopyAt(c: Config, pair: Request, ts: nat, from: nat, n: nat, i: nat)
    requires 0 <= c.skew <= ts && i < n
    ensures Copies(c, pair, ts, from, n)[i] == Again(c, pair, ts, from + i)
    decreases n
  {
    hide Again;
    if i > 0 {
      CopyAt(c, pair, ts, from + 1, n - 1, i - 1);
    }
  }

  /** The signature covers none of the times; it verifies. */
  ghost predicate Signed(c: Config, pair: Request, ts: nat) {
    && pair.timestamp != "" && pair.nonce != "" && pair.signature != "" && c.parse(pair.timestamp) == Some(ts)
    && forall r: Request :: r.(at := 0, setAt := 0, redis := Answers) == pair.(at := 0, setAt := 0, redis := Answers)
                            ==> c.verifies(r)
  }

  lemma {:induction false} CopiesAccepted(c: Config, store: Store, pair: Request, ts: nat, from: nat, n: nat, i: nat)
    requires 0 <= c.skew <= ts && Signed(c, pair, ts) && i < n
    requires pair.nonce in store ==> store[pair.nonce] < Again(c, pair, ts, from).setAt
    ensures AcceptedAt(c, store, Copies(c, pair, ts, from, n), i)
    decreases n
  {
    var first := Again(c, pair, ts, from);
    assert Fresh(c, first);
    var next := StoreAfter(c, store, first);
    assert (from + 1) * Gap(c) == from * Gap(c) + Gap(c);
    if i > 0 {
      CopiesAccepted(c, next, pair, ts, from + 1, n - 1, i - 1);
    }
  }

  lemma {:induction false} CopiesTimely(c: Config, pair: Request, ts: nat, n: nat, delay: nat)
    requires 0 <= c.skew <= ts && n > 0 && Fits(c, n, delay)
    ensures Timely(Copies(c, pair, ts, 0, n)) && Delayed(Copies(c, pair, ts, 0, n), delay)
  {
    var all := Copies(c, pair, ts, 0, n);
    forall i | 0 <= i < n ensures all[i] == Again(c, pair, ts, i) {
      CopyAt(c, pair, ts, 0, n, i);
    }
    forall i, j | 0 <= i <= j < n ensures i * Gap(c) <= j * Gap(c) <= (n - 1) * Gap(c) {
      Monotone(i, j, Gap(c));
      Monotone(j, n - 1, Gap(c));
    }
    hide Copies, Fits, Gap;
    assert Fits(c, n, delay);
  }

  lemma {:induction false} Monotone(i: nat, j: nat, m: nat)
    requires i <= j
    ensures i * m <= j * m
  {
  }

  /** A signed pair can be accepted n times, Redis at most so late, exactly if n - 1 lifetimes fit into
      its window and that delay. */
  lemma {:induction false} TimesExactly(c: Config, pair: Request, ts: nat, n: nat, delay: nat)
    requires Signed(c, pair, ts) && c.skew <= ts && n > 0
    ensures (exists requests :: |requests| == n && Repeated(c, map[], requests, pair)
                                && Timely(requests) && Delayed(requests, delay))
            <==> Fits(c, n, delay)
  {
    hide Fits, Copies;
    if Fits(c, n, delay) {
      SkewFits(c, n, delay);
      var all := Copies(c, pair, ts, 0, n);
      CopiesTimely(c, pair, ts, n, delay);
      forall i | 0 <= i < n ensures SamePair(pair, all[i]) && AcceptedAt(c, map[], all, i) {
        CopyAt(c, pair, ts, 0, n, i);
        CopiesAccepted(c, map[], pair, ts, 0, n, i);
      }
      assert Repeated(c, map[], all, pair);
    }
    if requests :| |requests| == n && Repeated(c, map[], requests, pair) && Timely(requests)
                   && Delayed(requests, delay) {
      var at := seq(n, i => i);
      assert PicksPair(c, map[], requests, at, pair);
      TimesFit(c, map[], requests, at, pair, delay);
    }
  }

  lemma {:induction false} SkewFits(c: Config, n: nat, delay: nat)
    requires Fits(c, n, delay)
    ensures c.skew >= 0
  {
  }

  /** Some run accepts a signed pair twice. */
  ghost predicate Replayable(c: Config, a: Request, b: Request) {
    && SamePair(a, b) && Timely([a, b]) && Instant([a, b])
    && Outcomes(c, map[], [a, b]) == [Accepted, Accepted]
  }

  /** It can happen exactly when the skew is 30 seconds or more: one request sent at both ends of the
      window of a time that leaves room for it, the second a millisecond into the last second. */
  lemma {:induction false} ReplayableFromThirty(c: Config, first: Request, ts: nat, late: nat)
    requires first.timestamp != "" && first.nonce != "" && first.signature != "" && first.redis == Answers
    requires c.parse(first.timestamp) == Some(ts) && ts >= Abs(c.skew)
    requires first.at == first.setAt == 1000 * (ts - c.skew) && late == 1000 * (ts + c.skew) + 1
    requires c.verifies(first) && c.verifies(first.(at := late, setAt := late))
    ensures Replayable(c, first, first.(at := late, setAt := late)) <==> c.skew >= 30
  {
    var second := first.(at := late, setAt := late);
    var next := StoreAfter(c, map[], first);
    assert [first, second][1..] == [second];
    assert Outcomes(c, map[], [first, second]) == [Verdict(c, map[], first), Verdict(c, next, second)] by {
      assert [second][1..] == [];
    }
    assert late / 1000 == ts + c.skew;
    assert c.skew >= 0 ==> Fresh(c, first) && Fresh(c, second);
  }
}
