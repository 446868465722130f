/** unflatten_dict on flat dicts of any origin: when insertion order matters, and what flattening the
    result gives back. */
module FlatOrder {
  import opened Options
  import opened FlatConfig
  import opened FlatRoundTrip

  /** The leaf at a path of keys. */
  function LeafAt(d: Dict, path: seq<string>): Option<Tree>
    requires path != []
    decreases |path|
  {
    match Get(d, path[0])
    case None => None
    case Some(Leaf(v)) => if |path| == 1 then Some(Leaf(v)) else None
    case Some(Node(sub)) => if |path| == 1 then None else LeafAt(sub, path[1..])
  }

  lemma {:induction false} CleanHasLeaf(d: Dict) returns (path: seq<string>)
    requires Clean(d) && Proper(d) && d != Empty
    ensures path != [] && LeafAt(d, path).Some? && path[0] == d.key
    decreases d
  {
    match d.value
    case Leaf(_) => path := [d.key];
    case Node(sub) =>
      var inner := CleanHasLeaf(sub);
      path := [d.key] + inner;
      assert path[1..] == inner;
  }

  lemma {:induction false} KeyHasLeaf(d: Dict, k: string) returns (path: seq<string>)
    requires Clean(d) && Proper(d) && k in Keys(d)
    ensures path != [] && LeafAt(d, path).Some? && path[0] == k
    decreases d
  {
    if d.key == k {
      path := CleanHasLeaf(d);
    } else {
      path := KeyHasLeaf(d.rest, k);
    }
  }

  lemma {:induction false} GetKeys(d: Dict, k: string)
    ensures Get(d, k).Some? <==> k in Keys(d)
  {
    if d.Entry? {
      GetKeys(d.rest, k);
    }
  }

  /** Neither path is a prefix of the other. */
  ghost predicate Apart(p: seq<string>, q: seq<string>) {
    !(p <= q) && !(q <= p)
  }

  ghost predicate ApartFromLeaves(d: Dict, path: seq<string>) {
    forall q :: q != [] && LeafAt(d, q).Some? ==> Apart(path, q)
  }

  lemma {:induction false} LeafUnder(d: Dict, k: string, q: seq<string>)
    requires q != []
    ensures ([k] + q)[1..] == q
    ensures LeafAt(d, [k] + q)
            == match Get(d, k) case Some(Node(sub)) => LeafAt(sub, q) case _ => None
  {
    assert ([k] + q)[1..] == q;
  }

  lemma {:induction false} ApartUnder(d: Dict, path: seq<string>, sub: Dict)
    requires |path| > 1 && ApartFromLeaves(d, path) && Get(d, path[0]) == Some(Node(sub))
    ensures ApartFromLeaves(sub, path[1..])
  {
    forall q | q != [] && LeafAt(sub, q).Some? ensures Apart(path[1..], q) {
      LeafUnder(d, path[0], q);
      assert Apart(path, [path[0]] + q);
      assert path == [path[0]] + path[1..];
    }
  }

  /** Where the key of a path apart from all leaves can be bound: nowhere, or to a dict above. */
  lemma {:induction false} ApartGet(d: Dict, path: seq<string>)
    requires Clean(d) && Proper(d) && DotFree(d) && path != [] && ApartFromLeaves(d, path)
    ensures |path| == 1 ==> Get(d, path[0]) == None
    ensures |path| > 1 && Get(d, path[0]).Some? ==> Get(d, path[0]).value.Node?
  {
    assert [path[0]] <= path;
    match Get(d, path[0])
    case None =>
    case Some(Leaf(v)) =>
      ApartFromLeaf(d, path, [path[0]]);
    case Some(Node(sub)) =>
      if |path| == 1 {
        GetKeys(d, path[0]);
        var q := KeyHasLeaf(d, path[0]);
        SingleIsPrefix(path, q);
        ApartFromLeaf(d, path, q);
      }
  }

  lemma {:induction false} ApartFromLeaf(d: Dict, path: seq<string>, q: seq<string>)
    requires ApartFromLeaves(d, path) && q != [] && LeafAt(d, q).Some?
    ensures Apart(path, q)
  {
  }

  lemma {:induction false} SingleIsPrefix(path: seq<string>, q: seq<string>)
    requires |path| == 1 && q != [] && q[0] == path[0]
    ensures path <= q
  {
  }

  /** Storing a path apart from all leaves adds that leaf and keeps the others. */
  lemma {:induction false} PutPathLeaves(d: Dict, path: seq<string>, v: Tree)
    requires Clean(d) && Proper(d) && DotFree(d) && path != [] && DotFreePath(path)
    requires v.Leaf? && !Blank(v) && ApartFromLeaves(d, path)
    ensures PutPath(d, path, v).Some?
    ensures forall q :: q != [] ==>
              LeafAt(PutPath(d, path, v).value, q) == if q == path then Some(v) else LeafAt(d, q)
    decreases |path|
  {
    ApartGet(d, path);
    var k := path[0];
    if |path| == 1 {
      forall q | q != [] ensures LeafAt(Put(d, k, v), q) == if q == path then Some(v) else LeafAt(d, q) {
        GetPut(d, k, v, q[0]);
        assert q == path <==> |q| == 1 && q[0] == k;
      }
    } else {
      var sub := if Get(d, k).Some? then Get(d, k).value.dict else Empty;
      if Get(d, k).Some? {
        GetKeeps(d, k);
        ApartUnder(d, path, sub);
      }
      PutPathLeaves(sub, path[1..], v);
      var s := PutPath(sub, path[1..], v).value;
      forall q | q != [] ensures LeafAt(Put(d, k, Node(s)), q) == if q == path then Some(v) else LeafAt(d, q) {
        GetPut(d, k, Node(s), q[0]);
        if q[0] == k && |q| > 1 {
          assert q == [k] + q[1..] && path == [k] + path[1..];
          assert LeafAt(s, q[1..]) == if q[1..] == path[1..] then Some(v) else LeafAt(sub, q[1..]);
        }
      }
    }
  }

  // ---- flat dicts in which no path is a prefix of another ----

  ghost predicate PrefixFree(ps: Paths) {
    && DistinctPaths(ps)
    && forall a, b :: a in ps && b in ps && a.0 <= b.0 ==> a.0 == b.0
  }

  /** The leaves of d are the stored paths. */
  ghost predicate LeavesAre(d: Dict, ps: Paths) {
    forall q, v :: q != [] ==> (LeafAt(d, q) == Some(v) <==> (q, v) in ps)
  }

  ghost predicate Storable(ps: Paths) {
    DotFreePaths(ps) && forall e :: e in ps ==> e.1.Leaf? && !Blank(e.1)
  }

  lemma {:induction false} NextApart(d: Dict, done: Paths, ps: Paths)
    requires ps != [] && LeavesAre(d, done) && PrefixFree(done + ps)
    ensures ApartFromLeaves(d, ps[0].0)
  {
    forall q | q != [] && LeafAt(d, q).Some? ensures Apart(ps[0].0, q) {
      var e := (q, LeafAt(d, q).value);
      assert e in done;
      var i :| 0 <= i < |done| && done[i] == e;
      assert (done + ps)[i].0 != (done + ps)[|done|].0;
      assert e in done + ps && ps[0] in done + ps;
    }
  }

  lemma {:induction false} LeavesNext(d: Dict, d': Dict, done: Paths, e: (seq<string>, Tree))
    requires LeavesAre(d, done) && forall q :: q != [] ==> LeafAt(d', q) == if q == e.0 then Some(e.1) else LeafAt(d, q)
    requires e.0 != [] && LeafAt(d, e.0) == None
    ensures LeavesAre(d', done + [e])
  {
    forall q, v | q != [] ensures LeafAt(d', q) == Some(v) <==> (q, v) in done + [e] {
      assert (q, v) in done + [e] <==> (q, v) in done || (q, v) == e;
    }
  }

  lemma {:induction false} StoreAllLeaves(d: Dict, done: Paths, ps: Paths)
    requires Clean(d) && Proper(d) && DotFree(d) && LeavesAre(d, done)
    requires PrefixFree(done + ps) && Storable(ps)
    ensures NonEmptyPaths(ps) && StoreAll(d, ps).Some?
    ensures var r := StoreAll(d, ps).value; Clean(r) && Proper(r) && DotFree(r) && LeavesAre(r, done + ps)
    decreases |ps|
  {
    assert NonEmptyPaths(ps);
    if ps == [] {
      assert done + ps == done;
    } else {
      var e := ps[0];
      assert e in ps;
      NextApart(d, done, ps);
      PutPathLeaves(d, e.0, e.1);
      PutPathKeeps(d, e.0, e.1);
      var d' := PutPath(d, e.0, e.1).value;
      assert Apart(e.0, e.0) || LeafAt(d, e.0) == None;
      LeavesNext(d, d', done, e);
      assert (done + [e]) + ps[1..] == done + ps;
      StoreAllLeaves(d', done + [e], ps[1..]);
    }
  }

  /** Neither None nor "". */
  ghost predicate NotEmpty(v: Tree) {
    v != Leaf(Null) && v != Leaf(Str(""))
  }

  /** The entries of a flat dict that unflatten_dict does not skip, with their paths. */
  function Kept(flat: Flat): Paths {
    if flat == [] then []
    else if Blank(flat[0].1) then Kept(flat[1..])
    else [(Split(flat[0].0), flat[0].1)] + Kept(flat[1..])
  }

  lemma {:induction false} KeptEntries(flat: Flat, e: (seq<string>, Tree))
    ensures e in Kept(flat) <==> exists f :: f in flat && NotEmpty(f.1) && e == (Split(f.0), f.1)
  {
    if flat != [] {
      KeptEntries(flat[1..], e);
      assert flat == [flat[0]] + flat[1..];
    }
  }

  /** A dict: no key twice. */
  ghost predicate ProperFlat(flat: Flat) {
    forall i, j :: 0 <= i < j < |flat| ==> flat[i].0 != flat[j].0
  }

  lemma {:induction false} KeptStorable(flat: Flat)
    requires LeafValued(flat) && ProperFlat(flat)
    ensures Storable(Kept(flat)) && DistinctPaths(Kept(flat))
  {
    if flat != [] {
      KeptStorable(flat[1..]);
      SplitDotFree(flat[0].0);
      var ps := Kept(flat[1..]);
      forall i | 0 <= i < |ps| ensures ps[i].0 != Split(flat[0].0) {
        KeptEntries(flat[1..], ps[i]);
        assert ps[i] in ps;
        var f :| f in flat[1..] && ps[i] == (Split(f.0), f.1);
        JoinSplit(f.0);
        JoinSplit(flat[0].0);
      }
    }
  }

  lemma {:induction false} UnflattenKept(d: Dict, flat: Flat)
    requires NonEmptyPaths(Kept(flat)) && Storable(Kept(flat))
    ensures UnflattenOnto(d, flat) == StoreAll(d, Kept(flat))
    decreases |flat|
  {
    if flat != [] {
      var ps := Kept(flat);
      if Blank(flat[0].1) {
        UnflattenKept(d, flat[1..]);
      } else {
        assert ps[1..] == Kept(flat[1..]);
        assert ps[0] in ps;
        assert Storable(ps[1..]) by {
          forall e | e in ps[1..] ensures e.1.Leaf? && !Blank(e.1) {
            assert e in ps;
          }
        }
        var r := PutPath(d, Split(flat[0].0), flat[0].1);
        if r.Some? {
          UnflattenKept(r.value, flat[1..]);
        }
      }
    }
  }

  /** No kept dotted path is a prefix of another. */
  ghost predicate NoConflict(flat: Flat) {
    forall f, g :: f in flat && g in flat && NotEmpty(f.1) && NotEmpty(g.1) && Split(f.0) <= Split(g.0) ==> f == g
  }

  lemma {:induction false} NoConflictPrefixFree(flat: Flat)
    requires LeafValued(flat) && ProperFlat(flat) && NoConflict(flat)
    ensures PrefixFree(Kept(flat))
  {
    KeptStorable(flat);
    forall a, b | a in Kept(flat) && b in Kept(flat) && a.0 <= b.0 ensures a.0 == b.0 {
      KeptEntries(flat, a);
      KeptEntries(flat, b);
    }
  }

  /** Without conflicts there is no TypeError, and the leaves of the tree are the kept entries. */
  lemma {:induction false} UnflattenLeaves(flat: Flat)
    requires LeafValued(flat) && ProperFlat(flat) && NoConflict(flat)
    ensures Unflatten(flat).Some?
    ensures var r := Unflatten(flat).value; Clean(r) && Proper(r) && DotFree(r) && LeavesAre(r, Kept(flat))
  {
    KeptStorable(flat);
    NoConflictPrefixFree(flat);
    assert [] + Kept(flat) == Kept(flat);
    assert LeavesAre(Empty, []);
    StoreAllLeaves(Empty, [], Kept(flat));
    UnflattenKept(Empty, flat);
  }

  // ---- flattening the result ----

  lemma {:induction false} UnderEntries(k: string, ps: Paths, q: seq<string>, v: Tree)
    ensures (q, v) in Under(k, ps) <==> q != [] && q[0] == k && (q[1..], v) in ps
  {
    if ps != [] {
      UnderEntries(k, ps[1..], q, v);
      assert ps == [ps[0]] + ps[1..];
      assert ([k] + ps[0].0)[1..] == ps[0].0;
      if q != [] && q[0] == k {
        assert q == [k] + q[1..];
      }
    }
  }

  lemma {:induction false} PathsAreLeaves(d: Dict, q: seq<string>, v: Tree)
    requires Proper(d) && q != []
    ensures (q, v) in PathsOf(d) <==> LeafAt(d, q) == Some(v)
    decreases d
  {
    match d
    case Empty =>
    case Entry(k, value, rest) =>
      PathsAreLeaves(rest, q, v);
      PathsStart(rest);
      if q[0] == k {
        GetKeys(rest, k);
        assert (q, v) !in PathsOf(rest);
      }
      match value {
        case Leaf(x) =>
          assert PathsOf(d) == [([k], value)] + PathsOf(rest);
          assert q == [k] <==> q[0] == k && |q| == 1;
        case Node(sub) =>
          UnderEntries(k, PathsOf(sub), q, v);
          PathsStart(sub);
          if |q| > 1 {
            PathsAreLeaves(sub, q[1..], v);
          } else {
            assert q[1..] == [];
          }
      }
  }

  lemma {:induction false} JoinAllEntries(ps: Paths, e: (string, Tree))
    requires DotFreePaths(ps)
    ensures NonEmptyPaths(ps)
    ensures e in JoinAll(ps) <==> (Split(e.0), e.1) in ps
  {
    assert NonEmptyPaths(ps);
    if ps != [] {
      JoinAllEntries(ps[1..], e);
      assert ps == [ps[0]] + ps[1..];
      SplitJoin(ps[0].0);
      JoinSplit(e.0);
    }
  }

  lemma {:induction false} JoinAllProper(ps: Paths)
    requires DotFreePaths(ps) && DistinctPaths(ps)
    ensures NonEmptyPaths(ps) && ProperFlat(JoinAll(ps))
  {
    assert NonEmptyPaths(ps);
    if ps != [] {
      JoinAllProper(ps[1..]);
      var rest := JoinAll(ps[1..]);
      forall j | 0 <= j < |rest| ensures rest[j].0 != Join(ps[0].0) {
        JoinAllEntries(ps[1..], rest[j]);
        assert rest[j] in rest;
        SplitJoin(ps[0].0);
        var i :| 0 <= i < |ps[1..]| && ps[1..][i] == (Split(rest[j].0), rest[j].1);
        assert ps[0].0 != ps[i + 1].0;
      }
    }
  }

  /** Without conflicts, unflattening a flat dict and flattening the tree gives the same dict minus
      its "" and None entries. */
  lemma {:induction false} FlattenUnflatten(flat: Flat)
    requires LeafValued(flat) && ProperFlat(flat) && NoConflict(flat)
    ensures Unflatten(flat).Some?
    ensures var back := Flatten(Unflatten(flat).value);
            ProperFlat(back) && forall e :: e in back <==> e in flat && e.1 != Leaf(Null) && e.1 != Leaf(Str(""))
  {
    UnflattenLeaves(flat);
    var d := Unflatten(flat).value;
    FlattenIsPaths(d);
    JoinAllProper(PathsOf(d));
    forall e ensures e in Flatten(d) <==> e in flat && NotEmpty(e.1) {
      JoinAllEntries(PathsOf(d), e);
      PathsAreLeaves(d, Split(e.0), e.1);
      KeptEntries(flat, (Split(e.0), e.1));
      JoinSplit(e.0);
      forall f | f in flat && Split(f.0) == Split(e.0) ensures f.0 == e.0 {
        JoinSplit(f.0);
      }
    }
  }

  // ---- insertion order ----

  /** Equality of Python dicts, which ignores the order of entries. */
  ghost predicate SameDict(a: Dict, b: Dict)
    decreases a, 1
  {
    Keys(a) == Keys(b) && Included(a, b)
  }

  ghost predicate Included(a: Dict, b: Dict)
    decreases a, 0
  {
    match a
    case Empty => true
    case Entry(k, v, rest) =>
      && Get(b, k).Some?
      && (match (v, Get(b, k).value)
          case (Leaf(x), Leaf(y)) => x == y
          case (Node(x), Node(y)) => SameDict(x, y)
          case _ => false)
      && Included(rest, b)
  }

  ghost predicate SameLeaves(a: Dict, b: Dict) {
    forall q :: q != [] ==> LeafAt(a, q) == LeafAt(b, q)
  }

  lemma {:induction false} SameLeavesKeys(a: Dict, b: Dict)
    requires Clean(a) && Proper(a) && SameLeaves(a, b)
    ensures Keys(a) <= Keys(b)
  {
    forall k | k in Keys(a) ensures k in Keys(b) {
      var q := KeyHasLeaf(a, k);
      assert LeafAt(b, q).Some?;
      GetKeys(b, k);
    }
  }

  lemma {:induction false} SameLeavesUnder(a: Dict, b: Dict, k: string, x: Dict, y: Dict)
    requires SameLeaves(a, b) && Get(a, k) == Some(Node(x)) && Get(b, k) == Some(Node(y))
    ensures SameLeaves(x, y)
  {
    forall q | q != [] ensures LeafAt(x, q) == LeafAt(y, q) {
      LeafUnder(a, k, q);
      LeafUnder(b, k, q);
      assert LeafAt(a, [k] + q) == LeafAt(b, [k] + q);
    }
  }

  /** Clean trees with the same leaves are equal as Python dicts. */
  lemma {:induction false} SameLeavesSame(a: Dict, b: Dict)
    requires Clean(a) && Proper(a) && DotFree(a) && Clean(b) && Proper(b) && DotFree(b) && SameLeaves(a, b)
    ensures SameDict(a, b)
    decreases a, 1
  {
    SameLeavesKeys(a, b);
    SameLeavesKeys(b, a);
    SameLeavesIncluded(a, a, b);
  }

  lemma {:induction false} SameLeavesIncluded(part: Dict, a: Dict, b: Dict)
    requires Clean(a) && Proper(a) && DotFree(a) && Clean(b) && Proper(b) && DotFree(b) && SameLeaves(a, b)
    requires Keys(part) <= Keys(b) && Proper(part) && forall k :: k in Keys(part) ==> Get(part, k) == Get(a, k)
    ensures Included(part, b)
    decreases part, 0
  {
    match part
    case Empty =>
    case Entry(k, v, rest) =>
      assert Get(part, k) == Some(v);
      GetKeys(b, k);
      assert LeafAt(a, [k]) == LeafAt(b, [k]);
      match (v, Get(b, k).value) {
        case (Leaf(_), Leaf(_)) =>
        case (Leaf(_), Node(_)) =>
        case (Node(_), Leaf(_)) =>
        case (Node(x), Node(y)) =>
          GetKeeps(a, k);
          GetKeeps(b, k);
          SameLeavesUnder(a, b, k, x, y);
          SameLeavesSame(x, y);
      }
      forall k' | k' in Keys(rest) ensures Get(rest, k') == Get(a, k') {
        assert Get(part, k') == Get(a, k');
      }
      SameLeavesIncluded(rest, a, b);
  }

  ghost predicate SameEntries(f: Flat, g: Flat) {
    forall e :: e in f <==> e in g
  }

  /** Without conflicts, two insertion orders of the same entries give equal trees. */
  lemma {:induction false} OrderIrrelevant(f: Flat, g: Flat)
    requires LeafValued(f) && ProperFlat(f) && LeafValued(g) && ProperFlat(g)
    requires SameEntries(f, g) && NoConflict(f)
    ensures Unflatten(f).Some? && Unflatten(g).Some?
    ensures SameDict(Unflatten(f).value, Unflatten(g).value)
  {
    assert NoConflict(g);
    UnflattenLeaves(f);
    UnflattenLeaves(g);
    var a, b := Unflatten(f).value, Unflatten(g).value;
    forall e ensures e in Kept(f) <==> e in Kept(g) {
      KeptEntries(f, e);
      KeptEntries(g, e);
    }
    forall q | q != [] ensures LeafAt(a, q) == LeafAt(b, q) {
      if LeafAt(a, q).Some? {
        assert (q, LeafAt(a, q).value) in Kept(g);
      }
      if LeafAt(b, q).Some? {
        assert (q, LeafAt(b, q).value) in Kept(f);
      }
    }
    SameLeavesSame(a, b);
  }

  // ---- with a conflict, insertion order decides ----

  lemma {:induction false} PutPathThenBelow(d: Dict, p: seq<string>, v: Tree, q: seq<string>, w: Tree)
    requires p != [] && p < q && v.Leaf?
    ensures PutPath(d, p, v).Some? ==> PutPath(PutPath(d, p, v).value, q, w) == None
    decreases |p|
  {
    if PutPath(d, p, v).Some? {
      var k := p[0];
      if |p| == 1 {
        GetPut(d, k, v, k);
      } else {
        var sub := match Get(d, k) case Some(Node(sub)) => sub case _ => Empty;
        PutPathThenBelow(sub, p[1..], v, q[1..], w);
        GetPut(d, k, Node(PutPath(sub, p[1..], v).value), k);
      }
    }
  }

  /** A key stored first makes every later key below it a TypeError. */
  lemma {:induction false} ShortFirstFails(rest: Flat, f: (string, Tree), g: (string, Tree))
    requires f.1.Leaf? && NotEmpty(f.1) && NotEmpty(g.1) && Split(f.0) < Split(g.0)
    ensures Unflatten([f, g] + rest) == None
  {
    var flat := [f, g] + rest;
    PutPathThenBelow(Empty, Split(f.0), f.1, Split(g.0), g.1);
    var d := PutPath(Empty, Split(f.0), f.1);
    assert flat[1..] == [g] + rest;
    if d.Some? {
      assert UnflattenOnto(Empty, flat) == UnflattenOnto(d.value, [g] + rest);
      assert UnflattenOnto(d.value, [g] + rest) == None;
    }
  }

  /** No leaf of d lies at a shorter path. */
  ghost predicate LeavesFrom(d: Dict, n: nat) {
    forall q :: q != [] && LeafAt(d, q).Some? ==> n <= |q|
  }

  lemma {:induction false} PutPathAbove(d: Dict, path: seq<string>, v: Tree)
    requires path != [] && v.Leaf? && LeavesFrom(d, |path|)
    ensures PutPath(d, path, v).Some?
    ensures LeavesFrom(PutPath(d, path, v).value, |path|)
    decreases |path|
  {
    var k := path[0];
    if |path| > 1 {
      if Get(d, k).Some? && Get(d, k).value.Leaf? {
        assert LeafAt(d, [k]).Some?;
      }
      var sub := if Get(d, k).Some? && Get(d, k).value.Node? then Get(d, k).value.dict else Empty;
      forall q | q != [] && LeafAt(sub, q).Some? ensures |path| - 1 <= |q| {
        LeafUnder(d, k, q);
        assert LeafAt(d, [k] + q).Some?;
      }
      PutPathAbove(sub, path[1..], v);
      var s := PutPath(sub, path[1..], v).value;
      forall q | q != [] && LeafAt(Put(d, k, Node(s)), q).Some? ensures |path| <= |q| {
        GetPut(d, k, Node(s), q[0]);
        if q[0] == k {
          assert LeafAt(s, q[1..]).Some?;
        } else {
          assert LeafAt(d, q).Some?;
        }
      }
    }
  }

  ghost predicate LongestFirst(flat: Flat) {
    forall i, j :: 0 <= i < j < |flat| ==> |Split(flat[j].0)| <= |Split(flat[i].0)|
  }

  lemma {:induction false} LongestFirstWorks(d: Dict, flat: Flat)
    requires LeafValued(flat) && LongestFirst(flat)
    requires forall i :: 0 <= i < |flat| ==> LeavesFrom(d, |Split(flat[i].0)|)
    ensures UnflattenOnto(d, flat).Some?
    decreases |flat|
  {
    if flat != [] {
      var path := Split(flat[0].0);
      if Blank(flat[0].1) {
        LongestFirstWorks(d, flat[1..]);
      } else {
        assert LeavesFrom(d, |path|);
        PutPathAbove(d, path, flat[0].1);
        var d' := PutPath(d, path, flat[0].1).value;
        forall i | 0 <= i < |flat[1..]| ensures LeavesFrom(d', |Split(flat[1..][i].0)|) {
          assert |Split(flat[i + 1].0)| <= |path|;
        }
        LongestFirstWorks(d', flat[1..]);
      }
    }
  }

  function InsertByLength(flat: Flat, e: (string, Tree)): Flat {
    if flat == [] || |Split(flat[0].0)| <= |Split(e.0)| then [e] + flat
    else [flat[0]] + InsertByLength(flat[1..], e)
  }

  function SortByLength(flat: Flat): Flat {
    if flat == [] then [] else InsertByLength(SortByLength(flat[1..]), flat[0])
  }

  lemma {:induction false} InsertByLengthSorted(flat: Flat, e: (string, Tree))
    requires LongestFirst(flat)
    ensures LongestFirst(InsertByLength(flat, e))
    ensures multiset(InsertByLength(flat, e)) == multiset(flat) + multiset{e}
  {
    if flat == [] || |Split(flat[0].0)| <= |Split(e.0)| {
    } else {
      InsertByLengthSorted(flat[1..], e);
      var r := InsertByLength(flat[1..], e);
      assert flat == [flat[0]] + flat[1..];
      forall j | 0 <= j < |r| ensures |Split(r[j].0)| <= |Split(flat[0].0)| {
        assert r[j] in multiset(r);
        if r[j] != e {
          assert r[j] in flat[1..];
        }
      }
    }
  }

  lemma {:induction false} SortByLengthSorted(flat: Flat)
    ensures LongestFirst(SortByLength(flat)) && multiset(SortByLength(flat)) == multiset(flat)
  {
    if flat != [] {
      SortByLengthSorted(flat[1..]);
      InsertByLengthSorted(SortByLength(flat[1..]), flat[0]);
      assert flat == [flat[0]] + flat[1..];
    }
  }

  lemma {:induction false} TakeOut(flat: Flat, i: nat)
    requires i < |flat|
    ensures multiset([flat[i]] + (flat[..i] + flat[i + 1..])) == multiset(flat)
  {
    assert flat == flat[..i] + [flat[i]] + flat[i + 1..];
  }

  lemma {:induction false} TwoToFront(flat: Flat, i: nat, j: nat) returns (rest: Flat)
    requires i < |flat| && j < |flat| && i != j
    ensures multiset([flat[i], flat[j]] + rest) == multiset(flat)
  {
    var one := flat[..i] + flat[i + 1..];
    var j' := if j < i then j else j - 1;
    TakeOut(flat, i);
    TakeOut(one, j');
    rest := one[..j'] + one[j' + 1..];
    assert one[j'] == flat[j];
    assert [flat[i], flat[j]] + rest == [flat[i]] + ([flat[j]] + rest);
  }

  lemma {:induction false} SameMultisetLeafValued(f: Flat, g: Flat)
    requires LeafValued(f) && multiset(f) == multiset(g)
    ensures LeafValued(g)
  {
    forall x | 0 <= x < |g| ensures g[x].1.Leaf? {
      assert g[x] in multiset(g);
      assert g[x] in f;
    }
  }

  /** With a conflict, some order of the same entries ends in a TypeError and some order does not:
      together with OrderIrrelevant, insertion order is irrelevant exactly without conflicts. */
  lemma {:induction false} ConflictMeansOrderMatters(flat: Flat, i: nat, j: nat) returns (bad: Flat, good: Flat)
    requires LeafValued(flat) && i < |flat| && j < |flat| && i != j
    requires NotEmpty(flat[i].1) && NotEmpty(flat[j].1) && Split(flat[i].0) < Split(flat[j].0)
    ensures multiset(bad) == multiset(flat) && multiset(good) == multiset(flat)
    ensures Unflatten(bad) == None && Unflatten(good).Some?
  {
    var rest := TwoToFront(flat, i, j);
    bad := [flat[i], flat[j]] + rest;
    ShortFirstFails(rest, flat[i], flat[j]);
    good := SortByLength(flat);
    SortByLengthSorted(flat);
    SameMultisetLeafValued(flat, good);
    LongestFirstWorks(Empty, good);
  }
}
