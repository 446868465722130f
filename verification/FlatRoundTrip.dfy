/** What unflatten_dict makes of the output of flatten_dict. */
module FlatRoundTrip {
  import opened Options
  import opened FlatConfig

  /** No key of the tree holds a dot. */
  ghost predicate DotFree(d: Dict) {
    match d
    case Empty => true
    case Entry(k, v, rest) => DotFreeKey(k) && (v.Node? ==> DotFree(v.dict)) && DotFree(rest)
  }

  /** No "" and no None, and no empty sub-dict, anywhere in the tree. */
  ghost predicate Clean(d: Dict) {
    match d
    case Empty => true
    case Entry(_, v, rest) =>
      && v != Leaf(Null) && v != Leaf(Str(""))
      && (v.Node? ==> v.dict != Empty && Clean(v.dict)) && Clean(rest)
  }

  /** d without its "" and None entries, and without the sub-dicts that this leaves empty. */
  function Prune(d: Dict): Dict {
    match d
    case Empty => Empty
    case Entry(k, Leaf(v), rest) =>
      if v == Null || v == Str("") then Prune(rest) else Entry(k, Leaf(v), Prune(rest))
    case Entry(k, Node(sub), rest) =>
      if Prune(sub) == Empty then Prune(rest) else Entry(k, Node(Prune(sub)), Prune(rest))
  }

  /** Nothing to prune exactly in the clean trees. */
  lemma {:induction false} PruneClean(d: Dict)
    ensures Clean(Prune(d))
    ensures Prune(d) == d <==> Clean(d)
  {
    match d
    case Empty =>
    case Entry(_, Leaf(_), rest) => PruneClean(rest); PruneShorter(rest);
    case Entry(_, Node(sub), rest) => PruneClean(sub); PruneClean(rest); PruneShorter(rest);
  }

  function Length(d: Dict): nat {
    if d == Empty then 0 else 1 + Length(d.rest)
  }

  lemma {:induction false} PruneShorter(d: Dict)
    ensures Length(Prune(d)) <= Length(d)
  {
    if d.Entry? {
      PruneShorter(d.rest);
    }
  }

  // ---- the leaves of a tree, with their paths ----

  type Paths = seq<(seq<string>, Tree)>

  function Under(k: string, ps: Paths): Paths {
    if ps == [] then [] else [([k] + ps[0].0, ps[0].1)] + Under(k, ps[1..])
  }

  function PathsOf(d: Dict): Paths {
    match d
    case Empty => []
    case Entry(k, Leaf(v), rest) => [([k], Leaf(v))] + PathsOf(rest)
    case Entry(k, Node(sub), rest) => Under(k, PathsOf(sub)) + PathsOf(rest)
  }

  lemma {:induction false} UnderAt(k: string, ps: Paths)
    ensures |Under(k, ps)| == |ps|
    ensures forall i :: 0 <= i < |ps| ==> Under(k, ps)[i] == ([k] + ps[i].0, ps[i].1)
  {
    if ps != [] {
      UnderAt(k, ps[1..]);
    }
  }

  ghost predicate NonEmptyPaths(ps: Paths) {
    forall i :: 0 <= i < |ps| ==> ps[i].0 != []
  }

  ghost predicate StartsIn(ps: Paths, keys: set<string>) {
    forall i :: 0 <= i < |ps| ==> ps[i].0 != [] && ps[i].0[0] in keys
  }

  lemma {:induction false} PathsStart(d: Dict)
    ensures StartsIn(PathsOf(d), Keys(d))
  {
    match d
    case Empty =>
    case Entry(k, Leaf(v), rest) => PathsStart(rest);
    case Entry(k, Node(sub), rest) => PathsStart(rest); UnderAt(k, PathsOf(sub));
  }

  // ---- unflattening the leaves of a tree ----

  function StoreAll(d: Dict, ps: Paths): Option<Dict>
    requires NonEmptyPaths(ps)
    decreases |ps|
  {
    if ps == [] then Some(d)
    else if Blank(ps[0].1) then StoreAll(d, ps[1..])
    else
      match PutPath(d, ps[0].0, ps[0].1)
      case None => None
      case Some(d') => StoreAll(d', ps[1..])
  }

  lemma {:induction false} StoreAllConcat(d: Dict, a: Paths, b: Paths)
    requires NonEmptyPaths(a) && NonEmptyPaths(b)
    ensures NonEmptyPaths(a + b)
    ensures StoreAll(d, a + b) == match StoreAll(d, a) case None => None case Some(d') => StoreAll(d', b)
    decreases |a|
  {
    if a == [] {
      assert a + b == b;
    } else {
      assert (a + b)[1..] == a[1..] + b;
      if Blank(a[0].1) {
        StoreAllConcat(d, a[1..], b);
      } else if PutPath(d, a[0].0, a[0].1).Some? {
        StoreAllConcat(PutPath(d, a[0].0, a[0].1).value, a[1..], b);
      }
    }
  }

  lemma {:induction false} PutPathNotEmpty(d: Dict, path: seq<string>, value: Tree)
    requires path != []
    ensures PutPath(d, path, value).Some? ==> PutPath(d, path, value).value != Empty
  {
  }

  lemma {:induction false} StoreAllNotEmpty(d: Dict, ps: Paths)
    requires NonEmptyPaths(ps) && d != Empty
    ensures StoreAll(d, ps).Some? ==> StoreAll(d, ps).value != Empty
    decreases |ps|
  {
    if ps != [] {
      if Blank(ps[0].1) {
        StoreAllNotEmpty(d, ps[1..]);
      } else if PutPath(d, ps[0].0, ps[0].1).Some? {
        PutPathNotEmpty(d, ps[0].0, ps[0].1);
        StoreAllNotEmpty(PutPath(d, ps[0].0, ps[0].1).value, ps[1..]);
      }
    }
  }

  lemma {:induction false} UnderNonEmpty(k: string, ps: Paths)
    ensures NonEmptyPaths(Under(k, ps))
  {
    UnderAt(k, ps);
  }

  /** Paths under a key that names a sub-dict change that sub-dict. */
  lemma {:induction false} StoreUnderOld(d: Dict, k: string, sub: Dict, ps: Paths)
    requires NonEmptyPaths(ps) && Get(d, k) == Some(Node(sub))
    ensures NonEmptyPaths(Under(k, ps))
    ensures StoreAll(d, Under(k, ps))
            == match StoreAll(sub, ps) case None => None case Some(s) => Some(Put(d, k, Node(s)))
    decreases |ps|
  {
    UnderNonEmpty(k, ps);
    if ps == [] {
      PutSame(d, k, Node(sub));
    } else if Blank(ps[0].1) {
      StoreUnderOld(d, k, sub, ps[1..]);
    } else {
      assert ([k] + ps[0].0)[1..] == ps[0].0;
      var stored := PutPath(sub, ps[0].0, ps[0].1);
      if stored.Some? {
        var d' := Put(d, k, Node(stored.value));
        GetPut(d, k, Node(stored.value), k);
        StoreUnderOld(d', k, stored.value, ps[1..]);
        var all := StoreAll(stored.value, ps[1..]);
        if all.Some? {
          PutPut(d, k, Node(stored.value), Node(all.value));
        }
      }
    }
  }

  /** Paths under a new key create its sub-dict, unless they store nothing. */
  lemma {:induction false} StoreUnderNew(d: Dict, k: string, ps: Paths)
    requires NonEmptyPaths(ps) && Get(d, k) == None
    ensures NonEmptyPaths(Under(k, ps))
    ensures StoreAll(d, Under(k, ps))
            == match StoreAll(Empty, ps)
               case None => None
               case Some(s) => Some(if s == Empty then d else Put(d, k, Node(s)))
    decreases |ps|
  {
    UnderNonEmpty(k, ps);
    if ps == [] {
    } else if Blank(ps[0].1) {
      StoreUnderNew(d, k, ps[1..]);
    } else {
      assert ([k] + ps[0].0)[1..] == ps[0].0;
      var stored := PutPath(Empty, ps[0].0, ps[0].1);
      if stored.Some? {
        PutPathNotEmpty(Empty, ps[0].0, ps[0].1);
        var d' := Put(d, k, Node(stored.value));
        GetPut(d, k, Node(stored.value), k);
        StoreUnderOld(d', k, stored.value, ps[1..]);
        StoreAllNotEmpty(stored.value, ps[1..]);
        var all := StoreAll(stored.value, ps[1..]);
        if all.Some? {
          PutPut(d, k, Node(stored.value), Node(all.value));
        }
      }
    }
  }

  function Append(a: Dict, b: Dict): Dict {
    if a == Empty then b else Entry(a.key, a.value, Append(a.rest, b))
  }

  lemma {:induction false} PutNew(d: Dict, k: string, v: Tree, rest: Dict)
    requires k !in Keys(d)
    ensures Get(d, k) == None
    ensures Append(Put(d, k, v), rest) == Append(d, Entry(k, v, rest))
    ensures Keys(Put(d, k, v)) == Keys(d) + {k}
  {
    if d.Entry? {
      PutNew(d.rest, k, v, rest);
    }
  }

  lemma {:induction false} AppendEmpty(d: Dict)
    ensures Append(d, Empty) == d
  {
    if d.Entry? {
      AppendEmpty(d.rest);
    }
  }

  /** Storing the leaves of a tree behind other entries appends the pruned tree. */
  lemma {:induction false} StoreLeaves(base: Dict, d: Dict)
    requires Proper(d) && Keys(base) !! Keys(d)
    ensures NonEmptyPaths(PathsOf(d))
    ensures StoreAll(base, PathsOf(d)) == Some(Append(base, Prune(d)))
    decreases d
  {
    PathsStart(d);
    match d
    case Empty => AppendEmpty(base);
    case Entry(k, Leaf(v), rest) =>
      PathsStart(rest);
      assert PathsOf(d)[1..] == PathsOf(rest);
      if Blank(Leaf(v)) {
        StoreLeaves(base, rest);
      } else {
        PutNew(base, k, Leaf(v), Prune(rest));
        StoreLeaves(Put(base, k, Leaf(v)), rest);
      }
    case Entry(k, Node(sub), rest) =>
      PathsStart(sub);
      PathsStart(rest);
      StoreLeaves(Empty, sub);
      PutNew(base, k, Node(Prune(sub)), Prune(rest));
      StoreUnderNew(base, k, PathsOf(sub));
      StoreAllConcat(base, Under(k, PathsOf(sub)), PathsOf(rest));
      if Prune(sub) == Empty {
        StoreLeaves(base, rest);
      } else {
        StoreLeaves(Put(base, k, Node(Prune(sub))), rest);
      }
  }

  // ---- flattening gives the leaves of a tree, with joined paths ----

  ghost predicate DotFreePaths(ps: Paths) {
    forall i :: 0 <= i < |ps| ==> ps[i].0 != [] && DotFreePath(ps[i].0)
  }

  ghost predicate DistinctPaths(ps: Paths) {
    forall i, j :: 0 <= i < j < |ps| ==> ps[i].0 != ps[j].0
  }

  function JoinAll(ps: Paths): Flat
    requires NonEmptyPaths(ps)
  {
    if ps == [] then [] else [(Join(ps[0].0), ps[0].1)] + JoinAll(ps[1..])
  }

  lemma {:induction false} JoinInjective(a: seq<string>, b: seq<string>)
    requires a != [] && b != [] && DotFreePath(a) && DotFreePath(b) && Join(a) == Join(b)
    ensures a == b
  {
    SplitJoin(a);
    SplitJoin(b);
  }

  /** A new path is appended to the flat dict. */
  lemma {:induction false} PutFlatNew(ps: Paths, path: seq<string>, v: Tree)
    requires DotFreePaths(ps) && path != [] && DotFreePath(path)
    requires forall i :: 0 <= i < |ps| ==> ps[i].0 != path
    ensures NonEmptyPaths(ps + [(path, v)])
    ensures PutFlat(JoinAll(ps), Join(path), v) == JoinAll(ps + [(path, v)])
  {
    assert NonEmptyPaths(ps + [(path, v)]);
    if ps != [] {
      assert (ps + [(path, v)])[1..] == ps[1..] + [(path, v)];
      PutFlatNew(ps[1..], path, v);
      if Join(ps[0].0) == Join(path) {
        JoinInjective(ps[0].0, path);
      }
    }
  }

  lemma {:induction false} UpdateNew(ps: Paths, qs: Paths)
    requires DotFreePaths(ps + qs) && DistinctPaths(ps + qs)
    ensures NonEmptyPaths(ps) && NonEmptyPaths(qs) && NonEmptyPaths(ps + qs)
    ensures Update(JoinAll(ps), JoinAll(qs)) == JoinAll(ps + qs)
    decreases |qs|
  {
    forall i | 0 <= i < |ps| ensures ps[i].0 != [] && DotFreePath(ps[i].0) {
      assert (ps + qs)[i] == ps[i];
    }
    forall i | 0 <= i < |qs| ensures qs[i].0 != [] {
      assert (ps + qs)[|ps| + i] == qs[i];
    }
    if qs == [] {
      assert ps + qs == ps;
    } else {
      forall i | 0 <= i < |ps| ensures ps[i].0 != qs[0].0 {
        assert (ps + qs)[i].0 != (ps + qs)[|ps|].0;
      }
      assert (ps + qs)[|ps|] == qs[0];
      PutFlatNew(ps, qs[0].0, qs[0].1);
      var ps' := ps + [qs[0]];
      assert ps' == ps + [(qs[0].0, qs[0].1)];
      assert ps' + qs[1..] == ps + qs;
      assert JoinAll(qs)[1..] == JoinAll(qs[1..]);
      UpdateNew(ps', qs[1..]);
    }
  }

  /** pre in front of every path. */
  function Full(pre: seq<string>, ps: Paths): Paths {
    if ps == [] then [] else [(pre + ps[0].0, ps[0].1)] + Full(pre, ps[1..])
  }

  function Prefix(pre: seq<string>): string {
    if pre == [] then "" else Join(pre) + "."
  }

  lemma {:induction false} JoinSnoc(pre: seq<string>, k: string)
    ensures Join(pre + [k]) == Prefix(pre) + k
  {
    if |pre| == 0 {
      assert pre + [k] == [k];
    } else {
      assert (pre + [k])[1..] == pre[1..] + [k];
      JoinSnoc(pre[1..], k);
      if |pre| > 1 {
        assert Join(pre) == pre[0] + "." + Join(pre[1..]);
      } else {
        assert pre[1..] == [];
      }
    }
  }

  lemma {:induction false} FullConcat(pre: seq<string>, a: Paths, b: Paths)
    ensures Full(pre, a + b) == Full(pre, a) + Full(pre, b)
  {
    if a == [] {
      assert a + b == b;
    } else {
      assert (a + b)[1..] == a[1..] + b;
      FullConcat(pre, a[1..], b);
    }
  }

  lemma {:induction false} FullUnder(pre: seq<string>, k: string, ps: Paths)
    ensures Full(pre, Under(k, ps)) == Full(pre + [k], ps)
  {
    if ps != [] {
      FullUnder(pre, k, ps[1..]);
      assert pre + ([k] + ps[0].0) == pre + [k] + ps[0].0;
    }
  }

  lemma {:induction false} PathsDistinct(d: Dict)
    requires Proper(d) && DotFree(d)
    ensures DistinctPaths(PathsOf(d)) && DotFreePaths(PathsOf(d))
  {
    match d
    case Empty =>
    case Entry(k, v, rest) =>
      PathsDistinct(rest);
      PathsStart(rest);
      var first := if v.Leaf? then [([k], v)] else Under(k, PathsOf(v.dict));
      if v.Node? {
        PathsDistinct(v.dict);
        UnderAt(k, PathsOf(v.dict));
        var ps := PathsOf(v.dict);
        forall i, j | 0 <= i < j < |first| ensures first[i].0 != first[j].0 {
          assert first[i].0[1..] == ps[i].0 && first[j].0[1..] == ps[j].0;
        }
        forall i | 0 <= i < |first| ensures DotFreePath(first[i].0) {
          assert first[i].0 == [k] + ps[i].0;
        }
      }
      assert PathsOf(d) == first + PathsOf(rest);
  }

  lemma {:induction false} PutFlatNext(ps: Paths, path: seq<string>, v: Tree, rest: Paths)
    requires path != [] && DotFreePath(path)
    requires DotFreePaths(ps + ([(path, v)] + rest)) && DistinctPaths(ps + ([(path, v)] + rest))
    ensures NonEmptyPaths(ps) && NonEmptyPaths(ps + [(path, v)])
    ensures PutFlat(JoinAll(ps), Join(path), v) == JoinAll(ps + [(path, v)])
  {
    var all := ps + ([(path, v)] + rest);
    SplitPaths(ps, [(path, v)] + rest);
    assert all[|ps|] == (path, v);
    forall i | 0 <= i < |ps| ensures ps[i].0 != path {
      assert all[i].0 != all[|ps|].0;
    }
    PutFlatNew(ps, path, v);
  }

  /** The loop of flatten_dict from a flat dict that holds other paths. */
  lemma {:induction false} FlattenLeaves(ps: Paths, d: Dict, pre: seq<string>)
    requires Proper(d) && DotFree(d) && DotFreePath(pre)
    requires DotFreePaths(ps + Full(pre, PathsOf(d))) && DistinctPaths(ps + Full(pre, PathsOf(d)))
    ensures NonEmptyPaths(ps) && NonEmptyPaths(ps + Full(pre, PathsOf(d)))
    ensures FlattenOnto(JoinAll(ps), d, Prefix(pre)) == JoinAll(ps + Full(pre, PathsOf(d)))
    decreases d
  {
    hide DistinctPaths, DotFreePaths, NonEmptyPaths, Join, PutFlat, Update, DotFreePath, DotFreeKey, JoinAll, Prefix,
         Full, Under;
    var all := ps + Full(pre, PathsOf(d));
    SplitPaths(ps, Full(pre, PathsOf(d)));
    DotFreeNonEmpty(all);
    DotFreeNonEmpty(ps);
    match d
    case Empty =>
      FullNone(pre);
      assert ps + [] == ps;
    case Entry(k, Leaf(v), rest) =>
      JoinSnoc(pre, k);
      DotFreeSnoc(pre, k);
      var x := (pre + [k], Leaf(v));
      var others := Full(pre, PathsOf(rest));
      FullCons(pre, k, Leaf(v), PathsOf(rest));
      PutFlatNext(ps, pre + [k], Leaf(v), others);
      assert (ps + [x]) + others == all;
      FlattenLeaves(ps + [x], rest, pre);
    case Entry(k, Node(sub), rest) =>
      FullConcat(pre, Under(k, PathsOf(sub)), PathsOf(rest));
      FullUnder(pre, k, PathsOf(sub));
      var mine := Full(pre + [k], PathsOf(sub));
      var others := Full(pre, PathsOf(rest));
      assert all == (ps + mine) + others;
      SplitPaths(ps + mine, others);
      SplitPaths(ps, mine);
      PrefixSnoc(pre, k);
      DotFreeSnoc(pre, k);
      NoneYet(mine);
      FlattenLeaves([], sub, pre + [k]);
      UpdateNew(ps, mine);
      FlattenLeaves(ps + mine, rest, pre);
  }

  lemma {:induction false} FullNone(pre: seq<string>)
    ensures Full(pre, []) == []
  {
  }

  lemma {:induction false} FullCons(pre: seq<string>, k: string, v: Tree, ps: Paths)
    ensures Full(pre, [([k], v)] + ps) == [(pre + [k], v)] + Full(pre, ps)
  {
    assert ([([k], v)] + ps)[1..] == ps;
  }

  lemma {:induction false} NoneYet(ps: Paths)
    ensures [] + ps == ps && NonEmptyPaths([]) && JoinAll([]) == []
  {
  }

  lemma {:induction false} DotFreeNonEmpty(ps: Paths)
    requires DotFreePaths(ps)
    ensures NonEmptyPaths(ps)
  {
  }

  lemma {:induction false} DotFreeSnoc(pre: seq<string>, k: string)
    requires DotFreePath(pre) && DotFreeKey(k)
    ensures DotFreePath(pre + [k])
  {
  }

  lemma {:induction false} PrefixSnoc(pre: seq<string>, k: string)
    ensures Prefix(pre) + k + "." == Prefix(pre + [k])
  {
    JoinSnoc(pre, k);
  }

  lemma {:induction false} SplitPaths(a: Paths, b: Paths)
    requires DotFreePaths(a + b) && DistinctPaths(a + b)
    ensures DotFreePaths(a) && DotFreePaths(b) && DistinctPaths(a) && DistinctPaths(b)
  {
    forall i | 0 <= i < |a| ensures a[i].0 != [] && DotFreePath(a[i].0) {
      assert (a + b)[i] == a[i];
    }
    forall i | 0 <= i < |b| ensures b[i].0 != [] && DotFreePath(b[i].0) {
      assert (a + b)[|a| + i] == b[i];
    }
    forall i, j | 0 <= i < j < |a| ensures a[i].0 != a[j].0 {
      assert (a + b)[i].0 != (a + b)[j].0;
    }
    forall i, j | 0 <= i < j < |b| ensures b[i].0 != b[j].0 {
      assert (a + b)[|a| + i].0 != (a + b)[|a| + j].0;
    }
  }

  lemma {:induction false} FullNothing(ps: Paths)
    ensures Full([], ps) == ps
  {
    if ps != [] {
      FullNothing(ps[1..]);
      assert [] + ps[0].0 == ps[0].0;
    }
  }

  /** flatten_dict of a tree with dot-free keys: its leaves, in order, under joined paths. */
  lemma {:induction false} FlattenIsPaths(d: Dict)
    requires Proper(d) && DotFree(d)
    ensures DotFreePaths(PathsOf(d)) && DistinctPaths(PathsOf(d)) && NonEmptyPaths(PathsOf(d))
    ensures Flatten(d) == JoinAll(PathsOf(d))
  {
    PathsDistinct(d);
    FullNothing(PathsOf(d));
    assert [] + Full([], PathsOf(d)) == PathsOf(d);
    FlattenLeaves([], d, []);
  }

  /** unflatten_dict on joined paths stores them one by one. */
  lemma {:induction false} UnflattenPaths(d: Dict, ps: Paths)
    requires DotFreePaths(ps)
    ensures NonEmptyPaths(ps) && UnflattenOnto(d, JoinAll(ps)) == StoreAll(d, ps)
    decreases |ps|
  {
    assert NonEmptyPaths(ps);
    if ps != [] {
      SplitJoin(ps[0].0);
      assert JoinAll(ps)[1..] == JoinAll(ps[1..]);
      if Blank(ps[0].1) {
        UnflattenPaths(d, ps[1..]);
      } else if PutPath(d, ps[0].0, ps[0].1).Some? {
        UnflattenPaths(PutPath(d, ps[0].0, ps[0].1).value, ps[1..]);
      }
    }
  }

  /** Unflattening a flattened tree with dot-free keys prunes it, key order included. */
  lemma {:induction false} UnflattenFlatten(d: Dict)
    requires Proper(d) && DotFree(d)
    ensures Unflatten(Flatten(d)) == Some(Prune(d))
  {
    FlattenIsPaths(d);
    UnflattenPaths(Empty, PathsOf(d));
    StoreLeaves(Empty, d);
  }

  // ---- what unflatten_dict can return at all ----

  ghost predicate LeafValued(flat: Flat) {
    forall i :: 0 <= i < |flat| ==> flat[i].1.Leaf?
  }

  lemma {:induction false} PutKeeps(d: Dict, k: string, v: Tree)
    requires Clean(d) && DotFree(d) && Proper(d) && DotFreeKey(k) && !Blank(v)
    requires v.Node? ==> v.dict != Empty && Clean(v.dict) && DotFree(v.dict) && Proper(v.dict)
    ensures Clean(Put(d, k, v)) && DotFree(Put(d, k, v)) && Proper(Put(d, k, v))
    ensures Keys(Put(d, k, v)) == Keys(d) + {k}
  {
    if d.Entry? && d.key != k {
      PutKeeps(d.rest, k, v);
    } else if d.Entry? {
      assert Keys(Entry(k, v, d.rest)) == Keys(d);
    }
  }

  lemma {:induction false} GetKeeps(d: Dict, k: string)
    requires Clean(d) && DotFree(d) && Proper(d) && Get(d, k).Some? && Get(d, k).value.Node?
    ensures var sub := Get(d, k).value.dict; Clean(sub) && DotFree(sub) && Proper(sub)
  {
    if d.key != k {
      GetKeeps(d.rest, k);
    }
  }

  lemma {:induction false} PutPathKeeps(d: Dict, path: seq<string>, v: Tree)
    requires Clean(d) && DotFree(d) && Proper(d) && path != [] && DotFreePath(path) && v.Leaf? && !Blank(v)
    ensures var r := PutPath(d, path, v);
            r.Some? ==> r.value != Empty && Clean(r.value) && DotFree(r.value) && Proper(r.value)
    decreases |path|
  {
    assert DotFreeKey(path[0]);
    if |path| == 1 {
      PutKeeps(d, path[0], v);
    } else {
      var sub := if Get(d, path[0]).Some? && Get(d, path[0]).value.Node? then Get(d, path[0]).value.dict else Empty;
      if Get(d, path[0]).Some? && Get(d, path[0]).value.Node? {
        GetKeeps(d, path[0]);
      }
      PutPathKeeps(sub, path[1..], v);
      var r := PutPath(sub, path[1..], v);
      if r.Some? {
        PutKeeps(d, path[0], Node(r.value));
      }
    }
  }

  /** Whatever the flat dict of leaves, a tree that comes back has no dots in its keys, no "" and no
      None, no empty sub-dict and no key twice. */
  lemma {:induction false} UnflattenIsClean(d: Dict, flat: Flat)
    requires Clean(d) && DotFree(d) && Proper(d) && LeafValued(flat)
    ensures var r := UnflattenOnto(d, flat); r.Some? ==> Clean(r.value) && DotFree(r.value) && Proper(r.value)
    decreases |flat|
  {
    if flat != [] {
      if Blank(flat[0].1) {
        UnflattenIsClean(d, flat[1..]);
      } else {
        SplitDotFree(flat[0].0);
        PutPathKeeps(d, Split(flat[0].0), flat[0].1);
        var r := PutPath(d, Split(flat[0].0), flat[0].1);
        if r.Some? {
          UnflattenIsClean(r.value, flat[1..]);
        }
      }
    }
  }

  lemma {:induction false} PutFlatLeafValued(flat: Flat, key: string, v: Tree)
    requires LeafValued(flat) && v.Leaf?
    ensures LeafValued(PutFlat(flat, key, v))
  {
    if flat != [] && flat[0].0 != key {
      PutFlatLeafValued(flat[1..], key, v);
    }
  }

  lemma {:induction false} UpdateLeafValued(flat: Flat, more: Flat)
    requires LeafValued(flat) && LeafValued(more)
    ensures LeafValued(Update(flat, more))
    decreases |more|
  {
    if more != [] {
      PutFlatLeafValued(flat, more[0].0, more[0].1);
      UpdateLeafValued(PutFlat(flat, more[0].0, more[0].1), more[1..]);
    }
  }

  lemma {:induction false} FlattenLeafValued(flat: Flat, d: Dict, prefix: string)
    requires LeafValued(flat)
    ensures LeafValued(FlattenOnto(flat, d, prefix))
    decreases d
  {
    match d
    case Empty =>
    case Entry(k, Leaf(v), rest) =>
      PutFlatLeafValued(flat, prefix + k, Leaf(v));
      FlattenLeafValued(PutFlat(flat, prefix + k, Leaf(v)), rest, prefix);
    case Entry(k, Node(sub), rest) =>
      FlattenLeafValued([], sub, prefix + k + ".");
      UpdateLeafValued(flat, FlattenOnto([], sub, prefix + k + "."));
      FlattenLeafValued(Update(flat, FlattenOnto([], sub, prefix + k + ".")), rest, prefix);
  }

  /** The round trip through the flat form gives a tree back exactly when its keys hold no dot, it
      has no "" and no None, and no empty sub-dict. */
  lemma {:induction false} RoundTrip(d: Dict)
    requires Proper(d)
    ensures Unflatten(Flatten(d)) == Some(d) <==> DotFree(d) && Clean(d)
  {
    FlattenLeafValued([], d, "");
    UnflattenIsClean(Empty, Flatten(d));
    if DotFree(d) && Clean(d) {
      UnflattenFlatten(d);
      PruneClean(d);
    }
  }
}
