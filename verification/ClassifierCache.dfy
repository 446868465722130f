/** The classification cache: an in-process LRU in front of Redis. */
module ClassifierCache {
  import opened Options

  datatype Source = Cache | Model | Fallback | Heuristic

  datatype Response = Response(intent: string, confidence: real, source: Source, taxonomy: string, model: string)

  /** Left over from failed model runs: never stored, never returned. */
  predicate Stale(r: Response) {
    r.intent == "unclassified" && r.confidence <= 0.0
  }

  // ---- keys ----

  /** What the key is built with: a SHA-256 hex digest, str.strip's white space, the fingerprint. */
  datatype KeyParts = KeyParts(hash: string -> string, isSpace: char -> bool, fingerprint: string)

  ghost predicate SameLength(p: KeyParts) {
    forall a, b :: |p.hash(a)| == |p.hash(b)|
  }

  function StripLeft(p: KeyParts, s: string): string {
    if s != "" && p.isSpace(s[0]) then StripLeft(p, s[1..]) else s
  }

  function StripRight(p: KeyParts, s: string): string {
    if s != "" && p.isSpace(s[|s| - 1]) then StripRight(p, s[..|s| - 1]) else s
  }

  /** (tenant_id or "default").strip() or "default". */
  function Tenant(p: KeyParts, tenant: Option<string>): string {
    var given := if tenant.Some? && tenant.value != "" then tenant.value else "default";
    var stripped := StripRight(p, StripLeft(p, given));
    if stripped == "" then "default" else stripped
  }

  const KEY_HEAD := "intent:cls:v"

  /** ClassificationCache._cache_key. */
  function CacheKey(p: KeyParts, text: string, tenant: Option<string>): string {
    KEY_HEAD + "7:" + p.fingerprint + ":" + Tenant(p, tenant) + ":" + p.hash(text)
  }

  /** The pattern intent:cls:v*:* of flush_all. */
  predicate Flushable(key: string) {
    KEY_HEAD <= key && ':' in key[|KEY_HEAD|..]
  }

  /** Two requests share a key exactly if their texts' digests and their normalised tenants are equal. */
  lemma {:induction false} CacheKeyInjective(p: KeyParts, t1: string, n1: Option<string>, t2: string,
                                             n2: Option<string>)
    requires SameLength(p)
    ensures CacheKey(p, t1, n1) == CacheKey(p, t2, n2) <==> p.hash(t1) == p.hash(t2) && Tenant(p, n1) == Tenant(p, n2)
  {
    if CacheKey(p, t1, n1) == CacheKey(p, t2, n2) {
      var head := KEY_HEAD + "7:" + p.fingerprint + ":";
      var a, b := head + Tenant(p, n1) + ":", head + Tenant(p, n2) + ":";
      assert CacheKey(p, t1, n1) == a + p.hash(t1) && CacheKey(p, t2, n2) == b + p.hash(t2);
      SameSplit(a, p.hash(t1), b, p.hash(t2));
      SameMiddle(head, Tenant(p, n1), Tenant(p, n2), ":");
    }
  }

  /** Whatever the digests are, one text has different keys for different normalised tenants. */
  lemma {:induction false} TenantsApart(p: KeyParts, text: string, n1: Option<string>, n2: Option<string>)
    ensures CacheKey(p, text, n1) == CacheKey(p, text, n2) <==> Tenant(p, n1) == Tenant(p, n2)
  {
    var head, tail := KEY_HEAD + "7:" + p.fingerprint + ":", ":" + p.hash(text);
    assert CacheKey(p, text, n1) == head + Tenant(p, n1) + tail;
    assert CacheKey(p, text, n2) == head + Tenant(p, n2) + tail;
    if CacheKey(p, text, n1) == CacheKey(p, text, n2) {
      SameMiddle(head, Tenant(p, n1), Tenant(p, n2), tail);
    }
  }

  lemma {:induction false} SameSplit(a: string, x: string, b: string, y: string)
    requires a + x == b + y && |x| == |y|
    ensures a == b && x == y
  {
    assert (a + x)[..|a|] == a && (b + y)[..|b|] == b;
    assert (a + x)[|a|..] == x && (b + y)[|b|..] == y;
  }

  lemma {:induction false} SameMiddle(head: string, x: string, y: string, tail: string)
    requires head + x + tail == head + y + tail
    ensures x == y
  {
    assert (head + x + tail)[|head|..|head| + |x|] == x;
    assert (head + y + tail)[|head|..|head| + |y|] == y;
  }

  ghost predicate AllSpace(p: KeyParts, s: string) {
    forall i :: 0 <= i < |s| ==> p.isSpace(s[i])
  }

  lemma {:induction false} LeftStripped(p: KeyParts, a: string, s: string)
    requires AllSpace(p, a) && (s != "" ==> !p.isSpace(s[0]))
    ensures StripLeft(p, a + s) == s
  {
    if a == "" {
      assert a + s == s;
    } else {
      assert (a + s)[0] == a[0] && (a + s)[1..] == a[1..] + s;
      LeftStripped(p, a[1..], s);
    }
  }

  lemma {:induction false} RightStripped(p: KeyParts, s: string, b: string)
    requires AllSpace(p, b) && (s != "" ==> !p.isSpace(s[|s| - 1]))
    ensures StripRight(p, s + b) == s
  {
    if b == "" {
      assert s + b == s;
    } else {
      var n := |b| - 1;
      assert (s + b)[|s + b| - 1] == b[n] && (s + b)[..|s + b| - 1] == s + b[..n];
      RightStripped(p, s, b[..n]);
    }
  }

  /** A tenant counts without the white space around it. */
  lemma {:induction false} TenantStripped(p: KeyParts, a: string, name: string, b: string)
    requires AllSpace(p, a) && AllSpace(p, b) && name != "" && !p.isSpace(name[0]) && !p.isSpace(name[|name| - 1])
    ensures Tenant(p, Some(a + name + b)) == name
  {
    assert a + name + b == a + (name + b);
    LeftStripped(p, a, name + b);
    RightStripped(p, name, b);
  }

  /** None, the empty string and white space stand for "default". */
  lemma {:induction false} TenantDefault(p: KeyParts, tenant: Option<string>)
    requires tenant.Some? ==> AllSpace(p, tenant.value)
    requires !p.isSpace('d') && !p.isSpace('t')
    ensures Tenant(p, tenant) == "default"
  {
    if tenant.Some? {
      LeftStripped(p, tenant.value, "");
      assert tenant.value + "" == tenant.value;
    }
  }

  /** The key of a text without a tenant. */
  lemma {:induction false} KeyWithoutTenant(p: KeyParts, text: string)
    requires !p.isSpace('d') && !p.isSpace('t')
    ensures CacheKey(p, text, None) == "intent:cls:v7:" + p.fingerprint + ":default:" + p.hash(text)
  {
    TenantDefault(p, None);
  }

  lemma {:induction false} CacheKeyFlushable(p: KeyParts, text: string, tenant: Option<string>)
    ensures Flushable(CacheKey(p, text, tenant))
  {
    var key := CacheKey(p, text, tenant);
    var rest := "7:" + p.fingerprint + ":" + Tenant(p, tenant) + ":" + p.hash(text);
    assert key == KEY_HEAD + rest;
    assert key[|KEY_HEAD|..] == rest && rest[1] == ':';
  }

  // ---- the ordered dict ----

  /** An OrderedDict, oldest entry first. */
  type Entries = seq<(string, Response)>

  function Lookup(es: Entries, key: string): Option<Response> {
    if es == [] then None
    else if es[0].0 == key then Some(es[0].1)
    else Lookup(es[1..], key)
  }

  function Without(es: Entries, key: string): Entries {
    if es == [] then []
    else if es[0].0 == key then es[1..]
    else [es[0]] + Without(es[1..], key)
  }

  /** es[key] = value: an old key keeps its place. */
  function SetItem(es: Entries, key: string, value: Response): Entries {
    if es == [] then [(key, value)]
    else if es[0].0 == key then [(key, value)] + es[1..]
    else [es[0]] + SetItem(es[1..], key, value)
  }

  /** move_to_end. */
  function MoveToEnd(es: Entries, key: string): Entries {
    match Lookup(es, key)
    case None => es
    case Some(v) => Without(es, key) + [(key, v)]
  }

  ghost predicate Proper(es: Entries) {
    forall i, j :: 0 <= i < j < |es| ==> es[i].0 != es[j].0
  }

  /** Storing and moving to the end, whatever was there. */
  function Stored(es: Entries, key: string, value: Response): Entries {
    Without(es, key) + [(key, value)]
  }

  function LastOf<T>(s: seq<T>, n: nat): seq<T> {
    if |s| > n then s[|s| - n..] else s
  }

  lemma {:induction false} SetThenMove(es: Entries, key: string, value: Response)
    ensures MoveToEnd(SetItem(es, key, value), key) == Stored(es, key, value)
  {
    SetItemLookup(es, key, value);
    SetItemWithout(es, key, value);
  }

  lemma {:induction false} SetItemLookup(es: Entries, key: string, value: Response)
    ensures Lookup(SetItem(es, key, value), key) == Some(value)
  {
    if es != [] && es[0].0 != key {
      SetItemLookup(es[1..], key, value);
    }
  }

  lemma {:induction false} SetItemWithout(es: Entries, key: string, value: Response)
    ensures Without(SetItem(es, key, value), key) == Without(es, key)
  {
    if es != [] && es[0].0 != key {
      SetItemWithout(es[1..], key, value);
    }
  }

  // ---- the cache as a state machine ----

  /** A call that awaits Redis: a get whose command is under way or answered, or a set whose command is
      under way. */
  datatype Waiting =
    | Reading(key: string)
    | Answered(key: string, raw: Option<Response>)
    | Writing(key: string, value: Response)

  /** lru and redis hold what the fields of those names hold; waiting are the calls at an await. */
  datatype State = State(lru: Entries, redis: map<string, Response>, waiting: map<nat, Waiting>)

  datatype Config = Config(parts: KeyParts, lruMax: nat, connected: bool)

  /** What runs without anything in between: a get or set up to its await; Redis running its command, or,
      with ok false, not; a get behind its await; Redis dropping a key, for a flush or because it expires;
      the end of a flush. Events of different calls come in any order. */
  datatype Event =
    | BeginGet(id: nat, key: string)
    | RedisGet(id: nat, ok: bool)
    | FinishGet(id: nat)
    | BeginSet(id: nat, key: string, value: Response)
    | RedisSet(id: nat, ok: bool)
    | Drop(key: string)
    | ClearLru

  function FromCache(r: Response): Response {
    r.(source := Cache)
  }

  function InRedis(redis: map<string, Response>, key: string): Option<Response> {
    if key in redis then Some(redis[key]) else None
  }

  /** _lru_set. */
  function Kept(c: Config, lru: Entries, key: string, r: Response): Entries {
    LastOf(Stored(lru, key, r), c.lruMax)
  }

  predicate Usable(r: Option<Response>) {
    r.Some? && !Stale(r.value)
  }

  predicate IsReading(st: State, id: nat) {
    id in st.waiting && st.waiting[id].Reading?
  }

  predicate IsAnswered(st: State, id: nat) {
    id in st.waiting && st.waiting[id].Answered?
  }

  predicate IsWriting(st: State, id: nat) {
    id in st.waiting && st.waiting[id].Writing?
  }

  /** An event that is not due leaves everything as it is. */
  function Step(c: Config, st: State, e: Event): State {
    match e
    case BeginGet(id, key) =>
      if id in st.waiting then st
      else if Lookup(st.lru, key).Some? then st.(lru := MoveToEnd(st.lru, key))
      else if c.connected then st.(waiting := st.waiting[id := Reading(key)])
      else st
    case RedisGet(id, ok) =>
      if !IsReading(st, id) then st
      else if !ok then st.(waiting := st.waiting - {id})
      else
        var key := st.waiting[id].key;
        st.(waiting := st.waiting[id := Answered(key, InRedis(st.redis, key))])
    case FinishGet(id) =>
      if !IsAnswered(st, id) then st
      else
        var w := st.waiting[id];
        State(if Usable(w.raw) then Kept(c, st.lru, w.key, w.raw.value) else st.lru, st.redis, st.waiting - {id})
    case BeginSet(id, key, value) =>
      if id in st.waiting || Stale(value) then st
      else
        State(Kept(c, st.lru, key, value), st.redis,
              if c.connected then st.waiting[id := Writing(key, value)] else st.waiting)
    case RedisSet(id, ok) =>
      if !IsWriting(st, id) then st
      else
        var w := st.waiting[id];
        State(st.lru, if ok then st.redis[w.key := w.value] else st.redis, st.waiting - {id})
    case Drop(key) => st.(redis := st.redis - {key})
    case ClearLru => st.(lru := [])
  }

  /** What a get of this key answers in this event; None also stands for no answer yet. */
  function AnswerFor(st: State, e: Event, key: string): Option<Response> {
    match e
    case BeginGet(id, k) =>
      if k == key && id !in st.waiting && Usable(Lookup(st.lru, key)) then Some(FromCache(Lookup(st.lru, key).value))
      else None
    case FinishGet(id) =>
      if IsAnswered(st, id) && st.waiting[id].key == key && Usable(st.waiting[id].raw)
      then Some(FromCache(st.waiting[id].raw.value))
      else None
    case _ => None
  }

  function Run(c: Config, st: State, events: seq<Event>): State
    decreases |events|
  {
    if events == [] then st else Run(c, Step(c, st, events[0]), events[1..])
  }

  /** The answer of the first event that has one. */
  function FirstAnswer(c: Config, st: State, events: seq<Event>, key: string): Option<Response>
    decreases |events|
  {
    if events == [] then None
    else if AnswerFor(st, events[0], key).Some? then AnswerFor(st, events[0], key)
    else FirstAnswer(c, Step(c, st, events[0]), events[1..], key)
  }

  /** The class: _lru, _lru_max, _client and the part of Redis it works on. */
  class ClassificationCache {
    var lru: Entries
    var redis: map<string, Response>
    ghost var waiting: map<nat, Waiting>
    const config: Config

    ghost function View(): State
      reads this
    {
      State(lru, redis, waiting)
    }

    constructor (parts: KeyParts, lruMax: int, connected: bool, redis: map<string, Response>)
      ensures View() == State([], redis, map[])
      ensures config == Config(parts, if lruMax < 1 then 1 else lruMax, connected)
    {
      this.lru := [];
      this.redis := redis;
      this.waiting := map[];
      this.config := Config(parts, if lruMax < 1 then 1 else lruMax, connected);
    }

    method LruGet(key: string) returns (val: Option<Response>)
      modifies this`lru
      ensures val == Lookup(old(lru), key)
      ensures lru == MoveToEnd(old(lru), key)
    {
      val := Lookup(lru, key);
      if val == None {
        return;
      }
      lru := MoveToEnd(lru, key);
    }

    method LruSet(key: string, response: Response)
      modifies this`lru
      ensures lru == Kept(config, old(lru), key, response)
    {
      SetThenMove(lru, key, response);
      lru := SetItem(lru, key, response);
      lru := MoveToEnd(lru, key);
      ghost var full := lru;
      while |lru| > config.lruMax
        invariant |lru| <= |full| && lru == full[|full| - |lru|..]
        invariant |lru| >= config.lruMax || lru == full
        decreases |lru|
      {
        lru := lru[1..];
      }
    }

    /** get() up to the await: an answer from the LRU, or the call waits, or it answers None. */
    method StartGet(ghost id: nat, key: string) returns (r: Option<Response>, waits: bool)
      requires id !in waiting
      modifies this
      ensures View() == Step(config, old(View()), BeginGet(id, key))
      ensures r == AnswerFor(old(View()), BeginGet(id, key), key)
      ensures waits <==> id in waiting
    {
      var hit := LruGet(key);
      if hit != None {
        if Stale(hit.value) {
          return None, false;
        }
        return Some(FromCache(hit.value)), false;
      }
      if !config.connected {
        return None, false;
      }
      waiting := waiting[id := Reading(key)];
      return None, true;
    }

    /** Redis answers the GET, or the call raises. */
    method ReadRedis(ghost id: nat, key: string, ok: bool) returns (raw: Option<Response>)
      requires id in waiting && waiting[id] == Reading(key)
      modifies this
      ensures View() == Step(config, old(View()), RedisGet(id, ok))
      ensures ok ==> waiting[id] == Answered(key, raw)
    {
      raw := None;
      if !ok {
        waiting := waiting - {id};
        return;
      }
      raw := InRedis(redis, key);
      waiting := waiting[id := Answered(key, raw)];
    }

    /** get() behind the await. */
    method EndGet(ghost id: nat, key: string, raw: Option<Response>) returns (r: Option<Response>)
      requires id in waiting && waiting[id] == Answered(key, raw)
      modifies this
      ensures View() == Step(config, old(View()), FinishGet(id))
      ensures r == AnswerFor(old(View()), FinishGet(id), key)
    {
      waiting := waiting - {id};
      if raw == None || Stale(raw.value) {
        return None;
      }
      LruSet(key, raw.value);
      r := Some(FromCache(raw.value));
    }

    /** set() up to the await. */
    method StartSet(ghost id: nat, key: string, response: Response) returns (waits: bool)
      requires id !in waiting
      modifies this
      ensures View() == Step(config, old(View()), BeginSet(id, key, response))
      ensures waits <==> id in waiting
    {
      if Stale(response) {
        return false;
      }
      LruSet(key, response);
      if !config.connected {
        return false;
      }
      waiting := waiting[id := Writing(key, response)];
      return true;
    }

    /** Redis runs the SETEX, or the call raises; set() has nothing left to do behind it. */
    method WriteRedis(ghost id: nat, key: string, response: Response, ok: bool)
      requires id in waiting && waiting[id] == Writing(key, response)
      modifies this
      ensures View() == Step(config, old(View()), RedisSet(id, ok))
    {
      waiting := waiting - {id};
      if ok {
        redis := redis[key := response];
      }
    }

    /** get() when nothing else runs while it waits. */
    method Get(ghost id: nat, text: string, tenant: Option<string>, ok: bool) returns (r: Option<Response>)
      requires id !in waiting
      modifies this
      ensures var key := CacheKey(config.parts, text, tenant);
              var events := [BeginGet(id, key), RedisGet(id, ok), FinishGet(id)];
              View() == Run(config, old(View()), events) && r == FirstAnswer(config, old(View()), events, key)
      ensures waiting == old(waiting)
    {
      var key := CacheKey(config.parts, text, tenant);
      ghost var events := [BeginGet(id, key), RedisGet(id, ok), FinishGet(id)];
      RunThree(config, View(), events[0], events[1], events[2]);
      AnswerOfThree(config, View(), events[0], events[1], events[2], key);
      hide Run, FirstAnswer;
      var waits;
      r, waits := StartGet(id, key);
      if waits {
        var raw := ReadRedis(id, key, ok);
        if ok {
          r := EndGet(id, key, raw);
        }
      }
      assert waiting == old(waiting);
    }

    /** set() when nothing else runs while it waits. */
    method Set(ghost id: nat, text: string, response: Response, tenant: Option<string>, ok: bool)
      requires id !in waiting
      modifies this
      ensures var key := CacheKey(config.parts, text, tenant);
              View() == Run(config, old(View()), [BeginSet(id, key, response), RedisSet(id, ok)])
      ensures response.intent == "unclassified" && response.confidence <= 0.0 ==> View() == old(View())
      ensures waiting == old(waiting)
    {
      var key := CacheKey(config.parts, text, tenant);
      RunTwo(config, View(), BeginSet(id, key, response), RedisSet(id, ok));
      var waits := StartSet(id, key, response);
      if waits {
        WriteRedis(id, key, response, ok);
      }
      assert waiting == old(waiting);
    }

    /** One delete of a flush. */
    method DeleteKey(key: string)
      modifies this`redis
      ensures View() == Step(config, old(View()), Drop(key))
    {
      redis := redis - {key};
    }

    /** The end of a flush. */
    method ClearEntries()
      modifies this`lru
      ensures View() == Step(config, old(View()), ClearLru)
    {
      lru := [];
    }

    /** flush_all() when nothing else runs while it waits: deletes the keys the scan reaches, then clears
        the LRU in any case. */
    method FlushAll(reached: set<string>) returns (deleted: nat)
      requires reached <= redis.Keys && forall key :: key in reached ==> Flushable(key)
      modifies this
      ensures redis == if config.connected then old(redis) - reached else old(redis)
      ensures View() == Step(config, old(View()).(redis := redis), ClearLru)
      ensures deleted == if config.connected then |reached| else 0
    {
      deleted := 0;
      if config.connected {
        var left := reached;
        while left != {}
          invariant left <= reached && redis == old(redis) - (reached - left)
          invariant deleted + |left| == |reached| && lru == old(lru) && waiting == old(waiting)
          decreases left
        {
          var key :| key in left;
          DeleteKey(key);
          left := left - {key};
          deleted := deleted + 1;
        }
      }
      ClearEntries();
    }
  }

  lemma {:induction false} RunTwo(c: Config, st: State, e: Event, f: Event)
    ensures Run(c, st, [e, f]) == Step(c, Step(c, st, e), f)
  {
    assert [e, f][1..] == [f] && [f][1..] == [];
    var last := Step(c, Step(c, st, e), f);
    assert Run(c, last, []) == last;
  }

  lemma {:induction false} RunThree(c: Config, st: State, e: Event, f: Event, g: Event)
    ensures Run(c, st, [e, f, g]) == Step(c, Step(c, Step(c, st, e), f), g)
  {
    assert [e, f, g][1..] == [f, g];
    RunTwo(c, Step(c, st, e), f, g);
  }

  lemma {:induction false} AnswerOfThree(c: Config, st: State, e: Event, f: Event, g: Event, key: string)
    ensures FirstAnswer(c, st, [e, f, g], key)
            == if AnswerFor(st, e, key).Some? then AnswerFor(st, e, key)
               else if AnswerFor(Step(c, st, e), f, key).Some? then AnswerFor(Step(c, st, e), f, key)
               else AnswerFor(Step(c, Step(c, st, e), f), g, key)
  {
    hide AnswerFor, Step;
    assert [e, f, g][1..] == [f, g] && [f, g][1..] == [g] && [g][1..] == [];
    var last := Step(c, Step(c, st, e), f);
    assert FirstAnswer(c, Step(c, last, g), [], key) == None;
    assert FirstAnswer(c, last, [g], key) == AnswerFor(last, g, key);
  }
}
