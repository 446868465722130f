/** flatten_dict and unflatten_dict: nested plugin configs against one level of dotted keys. */
module FlatConfig {
  import opened Options

  /** What a config holds besides sub-dicts; only None and "" are told apart from the rest. */
  datatype Value = Null | Str(s: string) | Other(id: int)

  datatype Tree = Leaf(v: Value) | Node(dict: Dict)

  /** A Python dict: entries in insertion order. */
  datatype Dict = Empty | Entry(key: string, value: Tree, rest: Dict)

  function Keys(d: Dict): set<string> {
    match d
    case Empty => {}
    case Entry(k, _, rest) => {k} + Keys(rest)
  }

  function Get(d: Dict, key: string): Option<Tree> {
    match d
    case Empty => None
    case Entry(k, v, rest) => if k == key then Some(v) else Get(rest, key)
  }

  /** d[key] = value: an old key keeps its place, a new one goes to the end. */
  function Put(d: Dict, key: string, value: Tree): Dict {
    match d
    case Empty => Entry(key, value, Empty)
    case Entry(k, v, rest) => if k == key then Entry(k, value, rest) else Entry(k, v, Put(rest, key, value))
  }

  /** No key twice, in no dict of the tree: what makes it a dict. */
  ghost predicate Proper(d: Dict) {
    match d
    case Empty => true
    case Entry(k, v, rest) => k !in Keys(rest) && (v.Node? ==> Proper(v.dict)) && Proper(rest)
  }

  // ---- dotted keys ----

  predicate DotFreeKey(key: string) {
    '.' !in key
  }

  ghost predicate DotFreePath(path: seq<string>) {
    forall i :: 0 <= i < |path| ==> DotFreeKey(path[i])
  }

  function Join(path: seq<string>): string
    requires path != []
  {
    if |path| == 1 then path[0] else path[0] + "." + Join(path[1..])
  }

  /** str.split("."). */
  function Split(key: string): (parts: seq<string>)
    ensures parts != []
  {
    if key == "" then [""]
    else
      var parts := Split(key[1..]);
      if key[0] == '.' then [""] + parts else [[key[0]] + parts[0]] + parts[1..]
  }

  lemma {:induction false} SplitDotFree(key: string)
    ensures DotFreePath(Split(key))
  {
    if key != "" {
      SplitDotFree(key[1..]);
    }
  }

  lemma {:induction false} JoinSplit(key: string)
    ensures Join(Split(key)) == key
  {
    if key != "" {
      JoinSplit(key[1..]);
      var parts := Split(key[1..]);
      if key[0] == '.' {
        assert ([""] + parts)[1..] == parts;
      } else if |parts| > 1 {
        var first := [key[0]] + parts[0];
        assert ([first] + parts[1..])[1..] == parts[1..];
        assert first + "." + Join(parts[1..]) == [key[0]] + (parts[0] + "." + Join(parts[1..]));
      }
    }
  }

  lemma {:induction false} SplitAtDot(head: string, tail: string)
    requires DotFreeKey(head)
    ensures Split(head) == [head]
    ensures Split(head + "." + tail) == [head] + Split(tail)
  {
    var s := head + "." + tail;
    if head == "" {
      assert s[1..] == tail;
    } else {
      SplitAtDot(head[1..], tail);
      assert s[1..] == head[1..] + "." + tail;
      assert head == [head[0]] + head[1..];
    }
  }

  /** Splitting a joined path of dot-free parts gives the path back. */
  lemma {:induction false} SplitJoin(path: seq<string>)
    requires path != [] && DotFreePath(path)
    ensures Split(Join(path)) == path
  {
    if |path| == 1 {
      SplitAtDot(path[0], "");
    } else {
      SplitAtDot(path[0], Join(path[1..]));
      SplitJoin(path[1..]);
    }
  }

  // ---- flatten_dict ----

  /** A flat dict, entries in insertion order. */
  type Flat = seq<(string, Tree)>

  function PutFlat(flat: Flat, key: string, value: Tree): Flat {
    if flat == [] then [(key, value)]
    else if flat[0].0 == key then [(key, value)] + flat[1..]
    else [flat[0]] + PutFlat(flat[1..], key, value)
  }

  /** flat.update(more). */
  function Update(flat: Flat, more: Flat): Flat
    decreases |more|
  {
    if more == [] then flat else Update(PutFlat(flat, more[0].0, more[0].1), more[1..])
  }

  /** The entries of d, flattened one after another onto a flat dict. */
  function FlattenOnto(flat: Flat, d: Dict, prefix: string): Flat
    decreases d
  {
    match d
    case Empty => flat
    case Entry(k, Node(sub), rest) =>
      FlattenOnto(Update(flat, FlattenOnto([], sub, prefix + k + ".")), rest, prefix)
    case Entry(k, Leaf(v), rest) => FlattenOnto(PutFlat(flat, prefix + k, Leaf(v)), rest, prefix)
  }

  function Flatten(d: Dict): Flat {
    FlattenOnto([], d, "")
  }

  /** gateway_plugins.flatten_dict. */
  method FlattenDict(d: Dict, prefix: string) returns (flat: Flat)
    ensures flat == FlattenOnto([], d, prefix)
    decreases d
  {
    flat := [];
    var items := d;
    while items.Entry?
      invariant items == d || items < d
      invariant FlattenOnto(flat, items, prefix) == FlattenOnto([], d, prefix)
      decreases items
    {
      match items.value {
        case Node(sub) =>
          var inner := FlattenDict(sub, prefix + items.key + ".");
          flat := Update(flat, inner);
        case Leaf(v) =>
          flat := PutFlat(flat, prefix + items.key, Leaf(v));
      }
      items := items.rest;
    }
  }

  // ---- unflatten_dict ----

  /** value == "" or value is None. */
  predicate Blank(value: Tree) {
    value == Leaf(Null) || value == Leaf(Str(""))
  }

  /** One entry of the loop: walk or create the dicts of path[:-1], then store. A part that names
      something other than a dict ends in a TypeError, here None. */
  function PutPath(d: Dict, path: seq<string>, value: Tree): Option<Dict>
    requires path != []
    decreases |path|
  {
    if |path| == 1 then Some(Put(d, path[0], value))
    else
      match Get(d, path[0])
      case None =>
        (match PutPath(Empty, path[1..], value)
         case None => None
         case Some(sub) => Some(Put(d, path[0], Node(sub))))
      case Some(Leaf(_)) => None
      case Some(Node(sub)) =>
        (match PutPath(sub, path[1..], value)
         case None => None
         case Some(sub') => Some(Put(d, path[0], Node(sub'))))
  }

  function UnflattenOnto(d: Dict, flat: Flat): Option<Dict>
    decreases |flat|
  {
    if flat == [] then Some(d)
    else if Blank(flat[0].1) then UnflattenOnto(d, flat[1..])
    else
      match PutPath(d, Split(flat[0].0), flat[0].1)
      case None => None
      case Some(d') => UnflattenOnto(d', flat[1..])
  }

  function Unflatten(flat: Flat): Option<Dict> {
    UnflattenOnto(Empty, flat)
  }

  /** The dict reached from d along a path of keys. */
  function At(d: Dict, path: seq<string>): Option<Dict>
    decreases |path|
  {
    if path == [] then Some(d)
    else
      match Get(d, path[0])
      case Some(Node(sub)) => At(sub, path[1..])
      case _ => None
  }

  /** d after the dict at the end of the path has been changed to `to`. */
  function SetAt(d: Dict, path: seq<string>, to: Dict): Dict
    requires At(d, path).Some?
    decreases |path|
  {
    if path == [] then to
    else Put(d, path[0], Node(SetAt(Get(d, path[0]).value.dict, path[1..], to)))
  }

  lemma {:induction false} GetPut(d: Dict, key: string, value: Tree, other: string)
    ensures Get(Put(d, key, value), other) == if other == key then Some(value) else Get(d, other)
  {
    match d
    case Empty =>
    case Entry(_, _, rest) => GetPut(rest, key, value, other);
  }

  lemma {:induction false} PutPut(d: Dict, key: string, value: Tree, again: Tree)
    ensures Put(Put(d, key, value), key, again) == Put(d, key, again)
  {
    match d
    case Empty =>
    case Entry(_, _, rest) => PutPut(rest, key, value, again);
  }

  lemma {:induction false} PutSame(d: Dict, key: string, value: Tree)
    requires Get(d, key) == Some(value)
    ensures Put(d, key, value) == d
  {
    match d
    case Empty =>
    case Entry(k, _, rest) =>
      if k != key {
        PutSame(rest, key, value);
      }
  }

  lemma {:induction false} AtSetAt(d: Dict, path: seq<string>, to: Dict)
    requires At(d, path).Some?
    ensures At(SetAt(d, path, to), path) == Some(to)
    decreases |path|
  {
    if path != [] {
      var sub := Get(d, path[0]).value.dict;
      AtSetAt(sub, path[1..], to);
      GetPut(d, path[0], Node(SetAt(sub, path[1..], to)), path[0]);
    }
  }

  lemma {:induction false} SetAtTwice(d: Dict, path: seq<string>, a: Dict, b: Dict)
    requires At(d, path).Some?
    ensures At(SetAt(d, path, a), path).Some?
    ensures SetAt(SetAt(d, path, a), path, b) == SetAt(d, path, b)
    decreases |path|
  {
    AtSetAt(d, path, a);
    if path != [] {
      var sub := Get(d, path[0]).value.dict;
      SetAtTwice(sub, path[1..], a, b);
      GetPut(d, path[0], Node(SetAt(sub, path[1..], a)), path[0]);
      PutPut(d, path[0], Node(SetAt(sub, path[1..], a)), Node(SetAt(sub, path[1..], b)));
    }
  }

  lemma {:induction false} AtDeeper(d: Dict, path: seq<string>, key: string)
    requires At(d, path).Some?
    ensures At(d, path + [key])
            == match Get(At(d, path).value, key) case Some(Node(sub)) => Some(sub) case _ => None
    decreases |path|
  {
    if path == [] {
      assert [key][1..] == [];
    } else {
      assert (path + [key])[1..] == path[1..] + [key];
      AtDeeper(Get(d, path[0]).value.dict, path[1..], key);
    }
  }

  lemma {:induction false} SetAtDeeper(d: Dict, path: seq<string>, key: string, to: Dict)
    requires At(d, path).Some? && At(d, path + [key]).Some?
    ensures SetAt(d, path + [key], to) == SetAt(d, path, Put(At(d, path).value, key, Node(to)))
    decreases |path|
  {
    if path == [] {
      assert [key][1..] == [];
    } else {
      assert (path + [key])[1..] == path[1..] + [key];
      SetAtDeeper(Get(d, path[0]).value.dict, path[1..], key, to);
    }
  }

  /** Stepping into an existing sub-dict. */
  lemma {:induction false} StepInto(root: Dict, walked: seq<string>, part: string, to: Dict)
    requires At(root, walked).Some?
    requires Get(At(root, walked).value, part).Some? && Get(At(root, walked).value, part).value.Node?
    ensures At(root, walked + [part]) == Some(Get(At(root, walked).value, part).value.dict)
    ensures SetAt(root, walked, Put(At(root, walked).value, part, Node(to))) == SetAt(root, walked + [part], to)
  {
    AtDeeper(root, walked, part);
    SetAtDeeper(root, walked, part, to);
  }

  /** Creating an empty sub-dict and stepping into it. */
  lemma {:induction false} StepCreate(root: Dict, walked: seq<string>, part: string, to: Dict)
    requires At(root, walked).Some?
    ensures var d := At(root, walked).value;
            var root' := SetAt(root, walked, Put(d, part, Node(Empty)));
            && At(root', walked + [part]) == Some(Empty)
            && SetAt(root, walked, Put(d, part, Node(to))) == SetAt(root', walked + [part], to)
  {
    var d := At(root, walked).value;
    var d' := Put(d, part, Node(Empty));
    var root' := SetAt(root, walked, d');
    AtSetAt(root, walked, d');
    GetPut(d, part, Node(Empty), part);
    StepInto(root', walked, part, to);
    PutPut(d, part, Node(Empty), Node(to));
    SetAtTwice(root, walked, d', Put(d, part, Node(to)));
  }

  /** The walk of one entry, with the variable d of the loop kept as the path from the root to the
      dict it refers to. */
  method StorePath(nested: Dict, parts: seq<string>, value: Tree) returns (r: Option<Dict>)
    requires parts != []
    ensures r == PutPath(nested, parts, value)
  {
    var root := nested;
    var walked: seq<string> := [];
    var i := 0;
    assert parts[0..] == parts;
    ghost var result := PutPath(nested, parts, value);
    while i < |parts| - 1
      invariant 0 <= i < |parts|
      invariant At(root, walked).Some?
      invariant result == StoredAt(root, walked, parts[i..], value)
    {
      var part := parts[i];
      var d := At(root, walked).value;
      assert parts[i..][1..] == parts[i + 1..];
      StoreStep(root, walked, parts[i..], value);
      if Get(d, part) == None {
        root := SetAt(root, walked, Put(d, part, Node(Empty)));
      } else if Get(d, part).value.Leaf? {
        return None;
      }
      walked := walked + [part];
      i := i + 1;
    }
    var d := At(root, walked).value;
    r := Some(SetAt(root, walked, Put(d, parts[i], value)));
  }

  /** What storing at the rest of a path from the dict reached so far makes of the whole dict. */
  ghost function StoredAt(root: Dict, walked: seq<string>, rest: seq<string>, value: Tree): Option<Dict>
    requires rest != [] && At(root, walked).Some?
  {
    match PutPath(At(root, walked).value, rest, value)
    case None => None
    case Some(sub) => Some(SetAt(root, walked, sub))
  }

  lemma {:induction false} StoreStep(root: Dict, walked: seq<string>, rest: seq<string>, value: Tree)
    requires |rest| > 1 && At(root, walked).Some?
    ensures match Get(At(root, walked).value, rest[0])
            case None =>
              var root' := SetAt(root, walked, Put(At(root, walked).value, rest[0], Node(Empty)));
              && At(root', walked + [rest[0]]).Some?
              && StoredAt(root, walked, rest, value) == StoredAt(root', walked + [rest[0]], rest[1..], value)
            case Some(Leaf(_)) => StoredAt(root, walked, rest, value) == None
            case Some(Node(sub)) =>
              && At(root, walked + [rest[0]]).Some?
              && StoredAt(root, walked, rest, value) == StoredAt(root, walked + [rest[0]], rest[1..], value)
  {
    var d := At(root, walked).value;
    match Get(d, rest[0])
    case None =>
      var inner := PutPath(Empty, rest[1..], value);
      StepCreate(root, walked, rest[0], if inner.Some? then inner.value else Empty);
    case Some(Leaf(_)) =>
    case Some(Node(sub)) =>
      var inner := PutPath(sub, rest[1..], value);
      StepInto(root, walked, rest[0], if inner.Some? then inner.value else Empty);
  }

  /** gateway_plugins.unflatten_dict; None stands for the TypeError. */
  method UnflattenDict(flat: Flat) returns (r: Option<Dict>)
    ensures r == Unflatten(flat)
  {
    var nested := Empty;
    assert flat[0..] == flat;
    for i := 0 to |flat|
      invariant Unflatten(flat) == UnflattenOnto(nested, flat[i..])
    {
      assert flat[i..][1..] == flat[i + 1..];
      var (key, value) := flat[i];
      if Blank(value) {
        continue;
      }
      var stored := StorePath(nested, Split(key), value);
      if stored == None {
        return None;
      }
      nested := stored.value;
    }
    r := Some(nested);
  }

  // ---- one config ----

  const REDIS := Entry("redis", Node(Entry("port", Leaf(Other(6379)), Empty)), Empty)

  lemma {:induction false} RedisKeys()
    ensures Split("redis.host") == ["redis", "host"] && Split("redis.port") == ["redis", "port"]
    ensures Join(["redis", "port"]) == "redis.port"
  {
    assert Join(["redis", "host"]) == "redis.host" by {
      assert ["redis", "host"][1..] == ["host"];
    }
    assert Join(["redis", "port"]) == "redis.port" by {
      assert ["redis", "port"][1..] == ["port"];
    }
    SplitJoin(["redis", "host"]);
    SplitJoin(["redis", "port"]);
  }

  /** A key is split at its dots, and an entry without a value is left to the default. */
  lemma {:induction false} RedisConfig(host: Tree)
    requires host == Leaf(Null) || host == Leaf(Str(""))
    ensures Unflatten([("redis.host", host), ("redis.port", Leaf(Other(6379)))]) == Some(REDIS)
  {
    RedisKeys();
    hide Split, Join;
    var flat := [("redis.host", host), ("redis.port", Leaf(Other(6379)))];
    assert flat[1..] == [flat[1]] && [flat[1]][1..] == [];
    assert ["redis", "port"][1..] == ["port"];
    assert PutPath(Empty, ["port"], Leaf(Other(6379))) == Some(Entry("port", Leaf(Other(6379)), Empty));
    assert PutPath(Empty, ["redis", "port"], Leaf(Other(6379))) == Some(REDIS);
    assert UnflattenOnto(REDIS, []) == Some(REDIS);
    assert UnflattenOnto(Empty, [flat[1]]) == Some(REDIS);
  }
}
