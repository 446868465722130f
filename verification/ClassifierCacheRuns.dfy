/** What holds of the classification cache whatever calls overlap and whichever Redis calls fail. */
module ClassifierCacheRuns {
  import opened Options
  import opened ClassifierCache

  // ---- the ordered dict, entry by entry ----

  lemma {:induction false} LookupIn(es: Entries, key: string)
    requires Lookup(es, key).Some?
    ensures (key, Lookup(es, key).value) in es
  {
    if es[0].0 != key {
      LookupIn(es[1..], key);
    }
  }

  lemma {:induction false} WithoutIn(es: Entries, key: string, e: (string, Response))
    requires e in Without(es, key)
    ensures e in es
  {
    if es != [] && es[0].0 != key {
      if e != es[0] {
        WithoutIn(es[1..], key, e);
      }
    }
  }

  /** An entry of the LRU after an operation was there before, or was just stored. */
  lemma {:induction false} EntryOrigin(es: Entries, key: string, value: Response, n: nat, e: (string, Response))
    requires e in LastOf(Stored(es, key, value), n)
    ensures e == (key, value) || e in es
  {
    if e != (key, value) {
      assert e in Without(es, key);
      WithoutIn(es, key, e);
    }
  }

  lemma {:induction false} MovedOrigin(es: Entries, key: string, e: (string, Response))
    requires e in MoveToEnd(es, key)
    ensures e in es
  {
    if Lookup(es, key).Some? {
      LookupIn(es, key);
      if e != (key, Lookup(es, key).value) {
        assert e in Without(es, key);
        WithoutIn(es, key, e);
      }
    }
  }

  // ---- one entry per key ----

  lemma {:induction false} ProperRest(es: Entries)
    requires Proper(es) && es != []
    ensures Proper(es[1..]) && forall e :: e in es[1..] ==> e.0 != es[0].0
  {
  }

  lemma {:induction false} ProperCons(first: (string, Response), rest: Entries)
    requires Proper(rest) && forall e :: e in rest ==> e.0 != first.0
    ensures Proper([first] + rest)
  {
    forall j | 0 <= j < |rest| ensures rest[j].0 != first.0 {
      assert rest[j] in rest;
    }
  }

  lemma {:induction false} WithoutProper(es: Entries, key: string)
    requires Proper(es)
    ensures Proper(Without(es, key)) && forall e :: e in Without(es, key) ==> e.0 != key && e in es
  {
    if es != [] {
      ProperRest(es);
      assert es == [es[0]] + es[1..];
      WithoutProper(es[1..], key);
      hide Proper;
      if es[0].0 != key {
        ProperCons(es[0], Without(es[1..], key));
      }
    }
  }

  lemma {:induction false} StoredProper(es: Entries, key: string, value: Response, n: nat)
    requires Proper(es)
    ensures Proper(Stored(es, key, value)) && Proper(LastOf(Stored(es, key, value), n))
  {
    WithoutProper(es, key);
    var r := Stored(es, key, value);
    forall i, j | 0 <= i < j < |r| ensures r[i].0 != r[j].0 {
      assert r[i] in Without(es, key);
    }
  }

  /** After a set the key has one entry, the new one. */
  lemma {:induction false} SetOrigin(es: Entries, key: string, value: Response, n: nat, e: (string, Response))
    requires Proper(es) && e in LastOf(Stored(es, key, value), n)
    ensures e == (key, value) || (e in es && e.0 != key)
  {
    WithoutProper(es, key);
    assert e != (key, value) ==> e in Without(es, key);
  }

  lemma {:induction false} StepProper(c: Config, st: State, e: Event)
    requires Proper(st.lru)
    ensures Proper(Step(c, st, e).lru)
  {
    match e
    case BeginGet(_, key) =>
      if Lookup(st.lru, key).Some? {
        StoredProper(st.lru, key, Lookup(st.lru, key).value, c.lruMax);
      }
    case FinishGet(id) =>
      if IsAnswered(st, id) && Usable(st.waiting[id].raw) {
        StoredProper(st.lru, st.waiting[id].key, st.waiting[id].raw.value, c.lruMax);
      }
    case BeginSet(_, key, value) => StoredProper(st.lru, key, value, c.lruMax);
    case _ =>
  }

  /** Where an entry of the LRU after an event comes from: it was there before, a get brings it back from
      Redis, or a set stores it. */
  lemma {:induction false} NextOrigin(c: Config, st: State, e: Event, entry: (string, Response))
    requires entry in Step(c, st, e).lru
    ensures entry in st.lru
            || (e.FinishGet? && IsAnswered(st, e.id) && st.waiting[e.id] == Answered(entry.0, Some(entry.1))
                && !Stale(entry.1))
            || (e.BeginSet? && e.key == entry.0 && e.value == entry.1 && !Stale(entry.1) && e.id !in st.waiting)
  {
    match e
    case BeginGet(id, key) =>
      if id !in st.waiting && Lookup(st.lru, key).Some? {
        MovedOrigin(st.lru, key, entry);
      }
    case FinishGet(id) =>
      if IsAnswered(st, id) && Usable(st.waiting[id].raw) {
        EntryOrigin(st.lru, st.waiting[id].key, st.waiting[id].raw.value, c.lruMax, entry);
      }
    case BeginSet(id, key, value) =>
      if id !in st.waiting && !Stale(value) {
        EntryOrigin(st.lru, key, value, c.lruMax, entry);
      }
    case _ =>
  }

  // ---- no stale entry ----

  /** No stale response in the LRU, and none on its way to Redis. */
  ghost predicate NoStale(st: State) {
    && (forall e :: e in st.lru ==> !Stale(e.1))
    && (forall id :: IsWriting(st, id) ==> !Stale(st.waiting[id].value))
  }

  lemma {:induction false} StepNoStale(c: Config, st: State, e: Event)
    requires NoStale(st)
    ensures NoStale(Step(c, st, e))
  {
    var next := Step(c, st, e);
    forall entry | entry in next.lru ensures !Stale(entry.1) {
      NextOrigin(c, st, e, entry);
    }
    forall id | IsWriting(next, id) ensures !Stale(next.waiting[id].value) {
      assert IsWriting(st, id) || (e.BeginSet? && e.id == id);
    }
  }

  /** Whatever Redis held at the start, whatever calls overlap and whichever fail: no response of a failed
      model run, "unclassified" with no confidence, is ever in the LRU or on its way to Redis, and none is
      ever returned. */
  lemma {:induction false} NeverStale(c: Config, st: State, events: seq<Event>, e: Event, key: string)
    requires NoStale(st)
    ensures var end := Run(c, st, events);
            && NoStale(end)
            && (forall entry :: entry in end.lru && entry.1.intent == "unclassified" ==> entry.1.confidence > 0.0)
            && (forall id :: IsWriting(end, id) && end.waiting[id].value.intent == "unclassified" ==>
                               end.waiting[id].value.confidence > 0.0)
            && var r := AnswerFor(end, e, key);
               r.Some? ==> (r.value.intent == "unclassified" ==> r.value.confidence > 0.0) && r.value.source == Cache
    decreases |events|
  {
    if events != [] {
      StepNoStale(c, st, events[0]);
      hide Step, NoStale;
      NeverStale(c, Step(c, st, events[0]), events[1..], e, key);
    }
  }

  // ---- only what was set ----

  /** The cacheable values set for a key so far, and what Redis held for it before the run. */
  function EverSet(c: Config, st: State, before: set<Response>, events: seq<Event>, key: string): set<Response>
    decreases |events|
  {
    if events == [] then before
    else EverSet(c, Step(c, st, events[0]), EverSetStep(st, before, events[0], key), events[1..], key)
  }

  function EverSetStep(st: State, before: set<Response>, e: Event, key: string): set<Response> {
    if e.BeginSet? && e.id !in st.waiting && e.key == key && !Stale(e.value) then before + {e.value} else before
  }

  function ValueOf(w: Waiting): Option<Response> {
    match w
    case Reading(_) => None
    case Answered(_, raw) => raw
    case Writing(_, value) => Some(value)
  }

  ghost predicate HoldsOnly(st: State, key: string, values: set<Response>) {
    && (forall e :: e in st.lru && e.0 == key ==> e.1 in values)
    && (key in st.redis ==> st.redis[key] in values)
    && (forall id :: id in st.waiting && st.waiting[id].key == key && ValueOf(st.waiting[id]).Some? ==>
                       ValueOf(st.waiting[id]).value in values)
  }

  lemma {:induction false} StepHoldsOnly(c: Config, st: State, e: Event, key: string, values: set<Response>)
    requires HoldsOnly(st, key, values)
    ensures HoldsOnly(Step(c, st, e), key, EverSetStep(st, values, e, key))
  {
    var next := Step(c, st, e);
    forall entry | entry in next.lru && entry.0 == key ensures entry.1 in EverSetStep(st, values, e, key) {
      NextOrigin(c, st, e, entry);
    }
  }

  lemma {:induction false} LookupHeld(st: State, key: string, values: set<Response>)
    requires HoldsOnly(st, key, values) && Lookup(st.lru, key).Some?
    ensures Lookup(st.lru, key).value in values
  {
    LookupIn(st.lru, key);
  }

  /** Whatever calls overlap and whichever fail, a get never answers with a value that was not set for
      its key, or in Redis before. */
  lemma {:induction false} GetReturnsSomeSet(c: Config, st: State, events: seq<Event>, e: Event, key: string,
                                             values: set<Response>)
    requires HoldsOnly(st, key, values)
    ensures var r := AnswerFor(Run(c, st, events), e, key);
            r.Some? ==> exists v :: v in EverSet(c, st, values, events, key) && r.value == FromCache(v)
    decreases |events|
  {
    if events == [] {
      if Lookup(st.lru, key).Some? {
        LookupHeld(st, key, values);
      }
    } else {
      StepHoldsOnly(c, st, events[0], key, values);
      hide Step, HoldsOnly;
      GetReturnsSomeSet(c, Step(c, st, events[0]), events[1..], e, key, EverSetStep(st, values, events[0], key));
    }
  }

  // ---- the LRU ----

  function KeysOf(es: Entries): seq<string> {
    if es == [] then [] else [es[0].0] + KeysOf(es[1..])
  }

  /** The keys of a list of touches without repetitions, by their latest touch, oldest first. */
  function Recency(touches: seq<string>): seq<string> {
    if touches == [] then []
    else
      var n := |touches| - 1;
      Removed(Recency(touches[..n]), touches[n]) + [touches[n]]
  }

  function Removed(keys: seq<string>, key: string): seq<string> {
    if keys == [] then []
    else if keys[0] == key then keys[1..]
    else [keys[0]] + Removed(keys[1..], key)
  }

  function Touches(c: Config, st: State, events: seq<Event>, sofar: seq<string>): seq<string>
    decreases |events|
  {
    if events == [] then sofar
    else Touches(c, Step(c, st, events[0]), events[1..], TouchStep(st, events[0], sofar))
  }

  /** A key is touched when a set stores it, when a get finds it in the LRU, and when a get stores what it
      found in Redis; the end of a flush starts afresh. */
  function TouchStep(st: State, e: Event, sofar: seq<string>): seq<string> {
    match e
    case BeginGet(id, key) => if id !in st.waiting && Lookup(st.lru, key).Some? then sofar + [key] else sofar
    case FinishGet(id) =>
      if IsAnswered(st, id) && Usable(st.waiting[id].raw) then sofar + [st.waiting[id].key] else sofar
    case BeginSet(id, key, value) => if id !in st.waiting && !Stale(value) then sofar + [key] else sofar
    case ClearLru => []
    case _ => sofar
  }

  ghost predicate NoRepeats(keys: seq<string>) {
    forall i, j :: 0 <= i < j < |keys| ==> keys[i] != keys[j]
  }

  lemma {:induction false} RemovedIn(keys: seq<string>, key: string)
    requires NoRepeats(keys)
    ensures NoRepeats(Removed(keys, key)) && forall k :: k in Removed(keys, key) <==> k in keys && k != key
    ensures key !in keys ==> Removed(keys, key) == keys
    ensures key in keys ==> |Removed(keys, key)| == |keys| - 1
  {
    if keys != [] {
      assert keys == [keys[0]] + keys[1..];
      if keys[0] == key {
        assert forall k :: k in keys[1..] ==> k != key;
      } else {
        RemovedIn(keys[1..], key);
        var rest := Removed(keys[1..], key);
        forall j | 0 <= j < |rest| ensures rest[j] != keys[0] {
          assert rest[j] in keys[1..];
        }
      }
    }
  }

  lemma {:induction false} RecencyKeys(touches: seq<string>)
    ensures NoRepeats(Recency(touches)) && forall k :: k in Recency(touches) <==> k in touches
  {
    if touches != [] {
      var n := |touches| - 1;
      RecencyKeys(touches[..n]);
      RemovedIn(Recency(touches[..n]), touches[n]);
      assert touches == touches[..n] + [touches[n]];
    }
  }

  lemma {:induction false} WithoutKeys(es: Entries, key: string)
    ensures KeysOf(Without(es, key)) == Removed(KeysOf(es), key)
    ensures Lookup(es, key).Some? <==> key in KeysOf(es)
    ensures |KeysOf(es)| == |es|
  {
    if es != [] {
      WithoutKeys(es[1..], key);
    }
  }

  lemma {:induction false} KeysConcat(a: Entries, b: Entries)
    ensures KeysOf(a + b) == KeysOf(a) + KeysOf(b)
  {
    if a == [] {
      assert a + b == b;
    } else {
      assert (a + b)[1..] == a[1..] + b;
      KeysConcat(a[1..], b);
    }
  }

  lemma {:induction false} LastOfTail<T>(s: seq<T>, n: nat)
    requires n < |s|
    ensures LastOf(s, n) == LastOf(s[1..], n)
  {
    if n < |s| - 1 {
      assert s[1..][|s| - 1 - n..] == s[|s| - n..];
    }
  }

  lemma {:induction false} KeysLength(es: Entries)
    ensures |KeysOf(es)| == |es|
    ensures es != [] ==> KeysOf(es)[1..] == KeysOf(es[1..])
  {
    if es != [] {
      KeysLength(es[1..]);
    }
  }

  lemma {:induction false} KeysLast(es: Entries, n: nat)
    ensures KeysOf(LastOf(es, n)) == LastOf(KeysOf(es), n)
  {
    KeysLength(es);
    hide KeysOf;
    if |es| > n {
      KeysLast(es[1..], n);
      LastOfTail(es, n);
      LastOfTail(KeysOf(es), n);
    }
  }

  function Touched(keys: seq<string>, key: string): seq<string> {
    Removed(keys, key) + [key]
  }

  /** Touching a key other than the first leaves the first where it is. */
  lemma {:induction false} TouchedTail(keys: seq<string>, key: string)
    requires NoRepeats(keys) && keys != []
    ensures NoRepeats(keys[1..]) && |keys| <= |Touched(keys, key)|
    ensures if keys[0] == key then Touched(keys, key) == Touched(keys[1..], key)
            else Touched(keys, key)[1..] == Touched(keys[1..], key) && |keys| - 1 <= |Touched(keys[1..], key)|
  {
    var rest := keys[1..];
    NoRepeatsTail(keys);
    RemovedIn(rest, key);
    hide NoRepeats;
    assert ([keys[0]] + Removed(rest, key)) + [key] == [keys[0]] + (Removed(rest, key) + [key]);
  }

  lemma {:induction false} NoRepeatsTail(keys: seq<string>)
    requires NoRepeats(keys) && keys != []
    ensures NoRepeats(keys[1..]) && keys[0] !in keys[1..]
  {
  }

  /** Dropping the oldest keys before or after a touch makes no difference. */
  lemma {:induction false} TouchLast(keys: seq<string>, key: string, n: nat)
    requires NoRepeats(keys) && n >= 1
    ensures LastOf(Touched(LastOf(keys, n), key), n) == LastOf(Touched(keys, key), n)
  {
    if |keys| > n {
      TouchedTail(keys, key);
      hide NoRepeats, Touched;
      TouchLast(keys[1..], key, n);
      LastOfTail(keys, n);
      hide LastOf;
      if keys[0] != key {
        LastOfTail(Touched(keys, key), n);
      }
    } else {
      assert LastOf(keys, n) == keys;
    }
  }

  lemma {:induction false} StoredKeys(es: Entries, key: string, value: Response, sofar: seq<string>, n: nat)
    requires n >= 1 && KeysOf(es) == LastOf(Recency(sofar), n)
    ensures KeysOf(LastOf(Stored(es, key, value), n)) == LastOf(Recency(sofar + [key]), n)
    ensures Lookup(es, key).Some? ==> KeysOf(Stored(es, key, value)) == LastOf(Recency(sofar + [key]), n)
  {
    var touched := sofar + [key];
    RecencyKeys(sofar);
    TouchLast(Recency(sofar), key, n);
    assert touched[..|sofar|] == sofar;
    assert Recency(touched) == Removed(Recency(sofar), key) + [key];
    hide Recency;
    WithoutKeys(es, key);
    KeysConcat(Without(es, key), [(key, value)]);
    SingleKey(key, value);
    KeysLast(Stored(es, key, value), n);
    if Lookup(es, key).Some? {
      LastOfNoRepeats(Recency(sofar), n);
      RemovedIn(KeysOf(es), key);
    }
  }

  lemma {:induction false} SingleKey(key: string, value: Response)
    ensures KeysOf([(key, value)]) == [key]
  {
    assert KeysOf([(key, value)][1..]) == [];
  }

  lemma {:induction false} LastOfNoRepeats(keys: seq<string>, n: nat)
    requires NoRepeats(keys)
    ensures NoRepeats(LastOf(keys, n))
  {
  }

  /** The ordered dict holds the most recently touched keys, in order of their latest touch. */
  ghost predicate MostRecent(c: Config, st: State, touches: seq<string>) {
    KeysOf(st.lru) == LastOf(Recency(touches), c.lruMax)
  }

  lemma {:induction false} StepLru(c: Config, st: State, e: Event, sofar: seq<string>)
    requires c.lruMax >= 1 && MostRecent(c, st, sofar)
    ensures MostRecent(c, Step(c, st, e), TouchStep(st, e, sofar))
  {
    hide Recency, LastOf, Lookup, KeysOf;
    match e
    case BeginGet(_, key) =>
      if Lookup(st.lru, key).Some? {
        StoredKeys(st.lru, key, Lookup(st.lru, key).value, sofar, c.lruMax);
      }
    case FinishGet(id) =>
      if IsAnswered(st, id) && Usable(st.waiting[id].raw) {
        StoredKeys(st.lru, st.waiting[id].key, st.waiting[id].raw.value, sofar, c.lruMax);
      }
    case BeginSet(_, key, value) =>
      StoredKeys(st.lru, key, value, sofar, c.lruMax);
    case ClearLru => NothingTouched(c.lruMax);
    case _ =>
  }

  lemma {:induction false} NothingTouched(n: nat)
    ensures LastOf(Recency([]), n) == [] && KeysOf([]) == []
  {
  }

  /** Whatever calls overlap and whichever fail: after every run the ordered dict holds exactly the
      lruMax most recently touched keys, in order of their latest touch. */
  lemma {:induction false} LruIsMostRecent(c: Config, st: State, events: seq<Event>, sofar: seq<string>)
    requires c.lruMax >= 1 && MostRecent(c, st, sofar)
    ensures MostRecent(c, Run(c, st, events), Touches(c, st, events, sofar))
    decreases |events|
  {
    if events != [] {
      hide MostRecent, Step, TouchStep;
      StepLru(c, st, events[0], sofar);
      LruIsMostRecent(c, Step(c, st, events[0]), events[1..], TouchStep(st, events[0], sofar));
    }
  }

  // ---- what the most recent keys are ----

  /** Behind the latest touch of a key stand exactly the keys touched later. */
  lemma {:induction false} RecencySplit(before: seq<string>, key: string,
                                        later: seq<string>) returns (older: seq<string>)
    requires key !in later
    ensures Recency(before + [key] + later) == older + [key] + Recency(later)
    decreases |later|
  {
    var touches := before + [key] + later;
    var n := |touches| - 1;
    if later == [] {
      assert touches[..n] == before;
      older := Removed(Recency(before), key);
    } else {
      var last := later[|later| - 1];
      var init := later[..|later| - 1];
      older := RecencySplit(before, key, init);
      assert touches[..n] == before + [key] + init;
      assert Recency(touches) == Removed(Recency(before + [key] + init), last) + [last];
      RecencyKeys(before + [key] + init);
      older := RemovedMiddle(older, key, Recency(init), last);
    }
  }

  lemma {:induction false} RemovedMiddle(older: seq<string>, key: string, newer: seq<string>,
                                         k: string) returns (rest: seq<string>)
    requires NoRepeats(older + [key] + newer) && k != key
    ensures Removed(older + [key] + newer, k) == rest + [key] + Removed(newer, k)
  {
    var all := older + [key] + newer;
    if older == [] {
      assert all == [key] + newer;
      rest := [];
    } else {
      assert all[1..] == older[1..] + [key] + newer;
      if older[0] == k {
        rest := older[1..];
        assert k !in newer by {
          forall i | 0 <= i < |newer| ensures newer[i] != k {
            assert all[0] != all[|older| + 1 + i];
          }
        }
        RemovedAbsent(newer, k);
      } else {
        var tail := RemovedMiddle(older[1..], key, newer, k);
        rest := [older[0]] + tail;
      }
    }
  }

  lemma {:induction false} RemovedAbsent(keys: seq<string>, k: string)
    requires k !in keys
    ensures Removed(keys, k) == keys
  {
    if keys != [] {
      RemovedAbsent(keys[1..], k);
    }
  }

  lemma {:induction false} RecencyLength(touches: seq<string>)
    ensures |Recency(touches)| == |set k | k in touches|
  {
    RecencyKeys(touches);
    SetOfNoRepeats(Recency(touches));
    assert (set k | k in touches) == (set k | k in Recency(touches));
  }

  lemma {:induction false} SetOfNoRepeats(keys: seq<string>)
    requires NoRepeats(keys)
    ensures |set k | k in keys| == |keys|
  {
    if keys != [] {
      SetOfNoRepeats(keys[1..]);
      assert (set k | k in keys) == {keys[0]} + (set k | k in keys[1..]);
      assert keys[0] !in keys[1..];
    }
  }

  /** A touched key is still held exactly while fewer than lruMax other keys have been touched since. */
  lemma {:induction false} Survives(before: seq<string>, key: string, later: seq<string>, n: nat)
    requires key !in later && n >= 1
    ensures key in LastOf(Recency(before + [key] + later), n) <==> |set k | k in later| < n
  {
    var all := Recency(before + [key] + later);
    var older := RecencySplit(before, key, later);
    RecencyKeys(before + [key] + later);
    RecencyLength(later);
    var p := |older|;
    assert all[p] == key && |all| - p - 1 == |Recency(later)|;
    if key in LastOf(all, n) && |all| > n {
      var i :| 0 <= i < n && LastOf(all, n)[i] == key;
      assert all[|all| - n + i] == key;
      assert |all| - n + i == p;
    }
    if |Recency(later)| < n && |all| > n {
      assert LastOf(all, n)[p - (|all| - n)] == key;
    }
  }
}
