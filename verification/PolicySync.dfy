/** Keeping the policy cache and OPA's copy in step: the push, its recorded hash, and the fail-closed
    check before a query. */
module PolicySync {
  import opened Options
  import opened PolicyEngine
  import opened StringOrder

  /** The governance_policies table, whose primary key is the policy id. */
  datatype Row = Row(active: bool, parses: bool, policy: Policy, version: string)

  datatype Bundle = Bundle(items: seq<Item>, version: string, hash: string)

  /** SHA-256 over the canonical JSON of a version and a list of items. */
  type Hash = (string, seq<Item>) -> string

  /** What is hashed: a version and a list of items in canonical order. */
  type Document = (string, seq<Item>)

  /** The digests of these documents, and of these only, do not collide. */
  ghost predicate Apart(h: Hash, known: set<Document>) {
    forall d, e :: d in known && e in known && h(d.0, d.1) == h(e.0, e.1) ==> d == e
  }

  // ---- the canonical order of items ----

  function SerializeAll(ps: seq<Policy>): (items: seq<Item>)
    ensures |items| == |ps| && forall i :: 0 <= i < |ps| ==> items[i] == Serialize(ps[i])
  {
    seq(|ps|, i requires 0 <= i < |ps| => Serialize(ps[i]))
  }

  /** normalized.sort(key=id), one item at a time: stable. */
  function InsertItem(items: seq<Item>, x: Item): seq<Item> {
    if items == [] || !Less(items[0].id, x.id) then [x] + items
    else [items[0]] + InsertItem(items[1..], x)
  }

  function SortItems(items: seq<Item>): seq<Item> {
    if items == [] then [] else InsertItem(SortItems(items[1..]), items[0])
  }

  /** PolicyService._compute_policy_hash. */
  function PolicyHash(h: Hash, ps: seq<Policy>, version: string): string {
    h(version, SortItems(SerializeAll(ps)))
  }

  ghost predicate AscendingIds(items: seq<Item>) {
    forall i, j :: 0 <= i < j < |items| ==> Less(items[i].id, items[j].id)
  }

  ghost predicate DistinctItemIds(items: seq<Item>) {
    forall i, j :: 0 <= i < j < |items| ==> items[i].id != items[j].id
  }

  lemma {:induction false} InsertItemAscending(items: seq<Item>, x: Item)
    requires AscendingIds(items) && forall y :: y in items ==> y.id != x.id
    ensures AscendingIds(InsertItem(items, x))
    ensures forall y :: y in InsertItem(items, x) <==> y in items || y == x
  {
    if items == [] {
    } else if !Less(items[0].id, x.id) {
      assert items[0] in items;
      LessTotal(x.id, items[0].id);
      forall j | 1 <= j < |items| ensures Less(x.id, items[j].id) {
        LessTransitive(x.id, items[0].id, items[j].id);
      }
    } else {
      assert items == [items[0]] + items[1..];
      InsertItemAscending(items[1..], x);
      var r := InsertItem(items[1..], x);
      forall j | 0 <= j < |r| ensures Less(items[0].id, r[j].id) {
        assert r[j] in r;
        if r[j] != x {
          var i :| 0 <= i < |items[1..]| && items[1..][i] == r[j];
          assert Less(items[0].id, items[i + 1].id);
        }
      }
    }
  }

  lemma {:induction false} SortItemsAscending(items: seq<Item>)
    requires DistinctItemIds(items)
    ensures AscendingIds(SortItems(items))
    ensures forall y :: y in SortItems(items) <==> y in items
  {
    if items != [] {
      assert items == [items[0]] + items[1..];
      SortItemsAscending(items[1..]);
      forall y | y in SortItems(items[1..]) ensures y.id != items[0].id {
        var i :| 0 <= i < |items[1..]| && items[1..][i] == y;
        assert items[0].id != items[i + 1].id;
      }
      InsertItemAscending(SortItems(items[1..]), items[0]);
    }
  }

  lemma {:induction false} AscendingItemsUnique(a: seq<Item>, b: seq<Item>)
    requires AscendingIds(a) && AscendingIds(b) && forall x :: x in a <==> x in b
    ensures a == b
  {
    assert a != [] ==> a[0] in b;
    assert b != [] ==> b[0] in a;
    if a != [] && b != [] {
      LessAsymmetric(a[0].id, b[0].id);
      assert a[0] == b[0];
      forall x ensures x in a[1..] <==> x in b[1..] {
        ItemsTail(a, x);
        ItemsTail(b, x);
      }
      AscendingItemsUnique(a[1..], b[1..]);
    }
  }

  lemma {:induction false} ItemsTail(a: seq<Item>, x: Item)
    requires AscendingIds(a) && a != []
    ensures x in a[1..] <==> x in a && x != a[0]
  {
    if x in a[1..] {
      var i :| 0 <= i < |a[1..]| && a[1..][i] == x;
      assert Less(a[0].id, a[i + 1].id);
      LessIrreflexive(x.id);
    }
    assert a == [a[0]] + a[1..];
  }

  ghost predicate SamePolicies(ps: seq<Policy>, qs: seq<Policy>) {
    forall p :: p in ps <==> p in qs
  }

  lemma {:induction false} SerializeAllIn(ps: seq<Policy>, item: Item)
    ensures item in SerializeAll(ps) <==> exists p :: p in ps && Serialize(p) == item
  {
    if item in SerializeAll(ps) {
      var i :| 0 <= i < |ps| && SerializeAll(ps)[i] == item;
      assert ps[i] in ps;
    }
    if p :| p in ps && Serialize(p) == item {
      var i :| 0 <= i < |ps| && ps[i] == p;
      assert SerializeAll(ps)[i] == item;
    }
  }

  lemma {:induction false} SortedPolicies(ps: seq<Policy>)
    requires DistinctIds(ps)
    ensures AscendingIds(SortItems(SerializeAll(ps)))
    ensures forall p :: p in ps <==> Serialize(p) in SortItems(SerializeAll(ps))
  {
    var items := SerializeAll(ps);
    forall i, j | 0 <= i < j < |items| ensures items[i].id != items[j].id {
      assert ps[i].id != ps[j].id;
    }
    SortItemsAscending(items);
    forall p ensures p in ps <==> Serialize(p) in SortItems(items) {
      SerializeAllIn(ps, Serialize(p));
      forall q | q in ps && Serialize(q) == Serialize(p) ensures q == p {
        SerializeInjective(q, p);
      }
    }
  }

  function Hashed(ps: seq<Policy>, version: string): Document {
    (version, SortItems(SerializeAll(ps)))
  }

  /** The hash is the same exactly for the same version and the same policies, in whatever order they
      are listed, if the two documents do not collide. */
  lemma {:induction false} HashIsCanonical(h: Hash, ps: seq<Policy>, v: string, qs: seq<Policy>, w: string)
    requires Apart(h, {Hashed(ps, v), Hashed(qs, w)}) && DistinctIds(ps) && DistinctIds(qs)
    ensures PolicyHash(h, ps, v) == PolicyHash(h, qs, w) <==> v == w && SamePolicies(ps, qs)
  {
    var a, b := SortItems(SerializeAll(ps)), SortItems(SerializeAll(qs));
    SortedPolicies(ps);
    SortedPolicies(qs);
    if SamePolicies(ps, qs) {
      forall x ensures x in a <==> x in b {
        SortedFromPolicies(ps, x);
        SortedFromPolicies(qs, x);
      }
      AscendingItemsUnique(a, b);
    }
  }

  lemma {:induction false} SortedFromPolicies(ps: seq<Policy>, x: Item)
    requires DistinctIds(ps)
    ensures x in SortItems(SerializeAll(ps)) <==> exists p :: p in ps && Serialize(p) == x
  {
    var items := SerializeAll(ps);
    forall i, j | 0 <= i < j < |items| ensures items[i].id != items[j].id {
      assert ps[i].id != ps[j].id;
    }
    SortItemsAscending(items);
    SerializeAllIn(ps, x);
  }

  // ---- the service ----

  /** What becomes of a PUT: accepted; or an error although OPA stored the bundle; or an error and
      nothing stored. */
  datatype Push = Accepted | FailedButLanded | FailedAndLost

  /** The cached policies and the recorded state of the last push; opa is OPA's data document. */
  datatype State = State(policies: seq<Policy>, version: string, localHash: Option<string>,
                         lastPushedHash: Option<string>, lastSyncOk: Option<bool>, opa: Option<Bundle>)

  function Active(rows: seq<Row>): (ps: seq<Policy>)
    ensures forall p :: p in ps ==> exists r :: r in rows && r.policy == p
  {
    if rows == [] then []
    else if rows[0].active && rows[0].parses then [rows[0].policy] + Active(rows[1..])
    else Active(rows[1..])
  }

  function VersionOf(rows: seq<Row>, before: string): string {
    if rows == [] then before else rows[0].version
  }

  function Synced(h: Hash, st: State, rows: seq<Row>, enabled: bool, push: Push): State {
    var ps := Active(rows);
    var version := VersionOf(rows, st.version);
    var hash := PolicyHash(h, ps, version);
    var opa := if enabled && push != FailedAndLost then Some(Bundle(SerializeAll(ps), version, hash)) else st.opa;
    if !enabled then State(ps, version, Some(hash), st.lastPushedHash, st.lastSyncOk, opa)
    else if push == Accepted then State(ps, version, Some(hash), Some(hash), Some(true), opa)
    else State(ps, version, Some(hash), st.lastPushedHash, Some(false), opa)
  }

  predicate InSync(st: State) {
    st.lastSyncOk == Some(true) && st.localHash.Some? && st.localHash == st.lastPushedHash
  }

  class PolicyService {
    var policies: seq<Policy>
    var version: string
    var localHash: Option<string>
    var lastPushedHash: Option<string>
    var lastSyncOk: Option<bool>
    var opa: Option<Bundle>
    const hash: Hash

    ghost function View(): State
      reads this
    {
      State(policies, version, localHash, lastPushedHash, lastSyncOk, opa)
    }

    constructor (hash: Hash, opa: Option<Bundle>)
      ensures View() == State([], "1.0.0", None, None, None, opa) && this.hash == hash
    {
      policies, version := [], "1.0.0";
      localHash, lastPushedHash, lastSyncOk := None, None, None;
      this.opa := opa;
      this.hash := hash;
    }

    /** sync_from_db; raised says whether PolicySyncError is raised at the end. */
    method SyncFromDb(rows: seq<Row>, enabled: bool, strict: bool, push: Push) returns (raised: bool)
      modifies this
      ensures View() == Synced(hash, old(View()), rows, enabled, push)
      ensures raised <==> enabled && strict && push != Accepted
    {
      var newPolicies: seq<Policy> := [];
      assert rows[0..] == rows;
      for i := 0 to |rows|
        invariant newPolicies + Active(rows[i..]) == Active(rows)
        invariant unchanged(this)
      {
        assert rows[i..][1..] == rows[i + 1..];
        if !rows[i].active {
          continue;
        }
        if rows[i].parses {
          newPolicies := newPolicies + [rows[i].policy];
        }
      }
      assert newPolicies + Active(rows[|rows|..]) == newPolicies;
      policies := newPolicies;
      if rows != [] {
        version := rows[0].version;
      }
      localHash := Some(PolicyHash(hash, policies, version));
      var failed := false;
      if enabled {
        if push != FailedAndLost {
          opa := Some(Bundle(SerializeAll(policies), version, localHash.value));
        }
        if push == Accepted {
          lastPushedHash := localHash;
          lastSyncOk := Some(true);
        } else {
          failed := true;
          lastSyncOk := Some(false);
        }
      }
      raised := failed && strict;
    }
  }

  // ---- safety over every run of syncs ----

  ghost predicate DistinctRows(rows: seq<Row>) {
    forall i, j :: 0 <= i < j < |rows| ==> rows[i].policy.id != rows[j].policy.id
  }

  lemma {:induction false} ActiveDistinct(rows: seq<Row>)
    requires DistinctRows(rows)
    ensures DistinctIds(Active(rows))
  {
    if rows != [] {
      ActiveDistinct(rows[1..]);
      var ps := Active(rows[1..]);
      forall j | 0 <= j < |ps| ensures ps[j].id != rows[0].policy.id {
        assert ps[j] in ps;
        var r :| r in rows[1..] && r.policy == ps[j];
        var i :| 0 <= i < |rows[1..]| && rows[1..][i] == r;
        assert rows[0].policy.id != rows[i + 1].policy.id;
      }
    }
  }

  /** A sync, or a restart of OPA, which drops what was pushed and loads the file it is started with. */
  datatype Event = Sync(rows: seq<Row>, enabled: bool, push: Push) | OpaRestart(bootstrap: Option<Bundle>)

  function StepEvent(h: Hash, st: State, e: Event): State {
    match e
    case Sync(rows, enabled, push) => Synced(h, st, rows, enabled, push)
    case OpaRestart(bootstrap) => st.(opa := bootstrap)
  }

  /** The data document holds the policies of ps under this version. */
  ghost predicate Holds(opa: Option<Bundle>, ps: seq<Policy>, version: string) {
    opa.Some? && opa.value.version == version && SameSet(opa.value.items, ps)
  }

  /** What has happened to OPA since the last accepted push: nothing, or a restart with this file. */
  datatype Since = Kept | Restarted(bootstrap: Option<Bundle>)

  function SinceAfter(since: Since, e: Event): Since {
    match e
    case Sync(_, enabled, push) => if enabled && push == Accepted then Kept else since
    case OpaRestart(bootstrap) => Restarted(bootstrap)
  }

  /** While the last push counts as accepted: OPA holds what was pushed, and the recorded hash is that
      of it; or it holds what it was restarted with. */
  ghost predicate PushInv(h: Hash, st: State, since: Since, known: set<Document>) {
    && DistinctIds(st.policies) && Hashed(st.policies, st.version) in known
    && (st.localHash.Some? ==> st.localHash.value == PolicyHash(h, st.policies, st.version))
    && (st.lastSyncOk == Some(true) ==>
          match since
          case Kept => exists ps :: DistinctIds(ps) && Pushed(h, st, ps, known)
          case Restarted(bootstrap) => st.opa == bootstrap)
  }

  ghost predicate Pushed(h: Hash, st: State, ps: seq<Policy>, known: set<Document>) {
    && st.opa.Some? && SameSet(st.opa.value.items, ps) && Hashed(ps, st.opa.value.version) in known
    && st.lastPushedHash == Some(PolicyHash(h, ps, st.opa.value.version))
  }

  /** The documents hashed so far. */
  function KnownAfter(known: set<Document>, next: State): set<Document> {
    known + {Hashed(next.policies, next.version)}
  }

  lemma {:induction false} StepInv(h: Hash, st: State, since: Since, e: Event, known: set<Document>)
    requires PushInv(h, st, since, known) && (e.Sync? ==> DistinctRows(e.rows))
    ensures PushInv(h, StepEvent(h, st, e), SinceAfter(since, e), KnownAfter(known, StepEvent(h, st, e)))
  {
    hide PolicyHash, Hashed, SameSet;
    var next := StepEvent(h, st, e);
    var now := KnownAfter(known, next);
    match e
    case OpaRestart(_) =>
    case Sync(rows, enabled, push) =>
      ActiveDistinct(rows);
      if enabled && push == Accepted {
        ItemsSame(next.policies);
        assert Pushed(h, next, next.policies, now);
      } else if !enabled && st.lastSyncOk == Some(true) && since == Kept {
        var ps :| DistinctIds(ps) && Pushed(h, st, ps, known);
        assert Pushed(h, next, ps, now);
      }
  }

  lemma {:induction false} ItemsSame(ps: seq<Policy>)
    ensures SameSet(SerializeAll(ps), ps)
  {
    forall item ensures item in SerializeAll(ps) <==> exists p :: p in ps && Serialize(p) == item {
      SerializeAllIn(ps, item);
    }
  }

  ghost function RunEvents(h: Hash, st: State, since: Since, events: seq<Event>): (State, Since)
    decreases |events|
  {
    if events == [] then (st, since)
    else RunEvents(h, StepEvent(h, st, events[0]), SinceAfter(since, events[0]), events[1..])
  }

  ghost function RunKnown(h: Hash, st: State, known: set<Document>, events: seq<Event>): set<Document>
    decreases |events|
  {
    if events == [] then known
    else RunKnown(h, StepEvent(h, st, events[0]), KnownAfter(known, StepEvent(h, st, events[0])), events[1..])
  }

  ghost predicate DistinctEvents(events: seq<Event>) {
    forall e :: e in events && e.Sync? ==> DistinctRows(e.rows)
  }

  lemma {:induction false} InSyncHolds(h: Hash, st: State, since: Since, known: set<Document>)
    requires Apart(h, known) && PushInv(h, st, since, known) && InSync(st)
    ensures Holds(st.opa, st.policies, st.version)
            <==> since == Kept || Holds(since.bootstrap, st.policies, st.version)
  {
    if since == Kept {
      var ps :| DistinctIds(ps) && Pushed(h, st, ps, known);
      hide Hashed;
      HashIsCanonical(h, ps, st.opa.value.version, st.policies, st.version);
      assert forall p :: p in ps <==> p in st.policies;
    }
  }

  /** Over every run of syncs, failed pushes included, and restarts: whenever the service takes itself to
      be in sync, OPA holds exactly the cached policies under the cached version if and only if it has
      not restarted since the last accepted push, or restarted with a file that holds them. Of the digests
      it is asked that those of the documents of this run do not collide. */
  lemma {:induction false} InSyncIsSafe(h: Hash, st: State, since: Since, events: seq<Event>, known: set<Document>)
    requires Apart(h, RunKnown(h, st, known, events)) && PushInv(h, st, since, known) && DistinctEvents(events)
    ensures var (end, sinceEnd) := RunEvents(h, st, since, events);
            && PushInv(h, end, sinceEnd, RunKnown(h, st, known, events))
            && (InSync(end) ==>
                  (Holds(end.opa, end.policies, end.version)
                   <==> sinceEnd == Kept || Holds(sinceEnd.bootstrap, end.policies, end.version)))
    decreases |events|
  {
    if events == [] {
      if InSync(st) {
        InSyncHolds(h, st, since, known);
      }
    } else {
      assert events[0] in events;
      StepInv(h, st, since, events[0], known);
      hide PushInv, StepEvent, InSync, Holds, KnownAfter;
      forall e | e in events[1..] && e.Sync? ensures DistinctRows(e.rows) {
        assert e in events;
      }
      var next := StepEvent(h, st, events[0]);
      InSyncIsSafe(h, next, SinceAfter(since, events[0]), events[1..], KnownAfter(known, next));
    }
  }

  function Initial(opa: Option<Bundle>): State {
    State([], "1.0.0", None, None, None, opa)
  }

  const FIRST: set<Document> := {Hashed([], "1.0.0")}

  lemma {:induction false} InitialInv(h: Hash, opa: Option<Bundle>)
    ensures PushInv(h, Initial(opa), Kept, FIRST)
  {
  }

  /** OPA's verdict on a context while it holds a data document. */
  function OpaVerdict(opa: Option<Bundle>, ps: seq<Policy>, ctx: Context): Outcome {
    OpaOutcome(ps, ctx, RegoAllow(BundleItems(opa), ctx), RegoBlock(BundleItems(opa), ctx))
  }

  /** The first cached policy that blocks is the first one whose id the data document blocks. */
  predicate SameFirstBlock(opa: Option<Bundle>, ps: seq<Policy>, ctx: Context) {
    FirstBlocked(ps, ctx) == FirstDenied(ps, RegoBlock(BundleItems(opa), ctx))
  }

  /** A restart is not noticed, whatever OPA is restarted with: the service still takes itself to be in
      sync. From then on a verdict is the one the cached policies give exactly if they and the file of
      the restart block the same policy first. */
  lemma {:induction false} RestartUnnoticed(h: Hash, st: State, rows: seq<Row>, bootstrap: Option<Bundle>, ctx: Context)
    requires DistinctRows(rows)
    ensures var synced := StepEvent(h, st, Sync(rows, true, Accepted));
            var restarted := StepEvent(h, synced, OpaRestart(bootstrap));
            && InSync(restarted) && restarted.policies == Active(rows)
            && (Agree(LocalFrom([], Active(rows), ctx), OpaVerdict(restarted.opa, restarted.policies, ctx))
                <==> SameFirstBlock(bootstrap, Active(rows), ctx))
  {
    ActiveDistinct(rows);
    AgreeWhenSameFirst(BundleItems(bootstrap), Active(rows), ctx);
  }

  /** opa/data/policies.json. */
  const BOOTSTRAP := Bundle([
    Item("high-sensitivity-onprem", Some("High sensitivity data must stay on-prem for finance tenant"),
         "allow_onprem_only", Some("HIGH"), Some("finance")),
    Item("deny-cloud-restricted", Some("Deny cloud for restricted segments"),
         "deny_cloud", None, Some("restricted-segment")),
    Item("medium-sensitivity-default", Some("Medium sensitivity allows cloud but warns (placeholder)"),
         "allow_all", Some("MEDIUM"), None),
    Item("block-all-cloud-high", Some("Cloud services are forbidden for high sensitivity data across all tenants"),
         "deny_cloud", Some("HIGH"), None)], "1.0.0", "bootstrap")

  const ADDED := Policy("deny-acme", None, Condition(None, Some("acme")), DenyAll)
  const KEPT := Policy("block-all-cloud-high", None, Condition(Some("HIGH"), None), DenyCloud)
  const ACME := Context("cloud", Some("LOW"), Some("acme"))
  const HIGH := Context("cloud", Some("HIGH"), None)

  /** With the repository's own file: a policy added since then, here one against everything of a tenant,
      no longer holds after a restart, while one the file has as well, here that against sensitive data
      in the cloud, still does. */
  lemma {:induction false} RestartForgetsNewPolicy(h: Hash, st: State, rows: seq<Row>)
    requires rows == [Row(true, true, ADDED, "1.0.1"), Row(true, true, KEPT, "1.0.1")]
    ensures var restarted := StepEvent(h, StepEvent(h, st, Sync(rows, true, Accepted)), OpaRestart(Some(BOOTSTRAP)));
            && InSync(restarted)
            && LocalFrom([], restarted.policies, ACME).Violation?
            && OpaVerdict(restarted.opa, restarted.policies, ACME).Returned?
            && LocalFrom([], restarted.policies, HIGH).Violation?
            && OpaVerdict(restarted.opa, restarted.policies, HIGH).Violation?
  {
    BothActive(rows);
    FileOnAcme();
    FileOnHigh();
    hide LocalFrom, OpaVerdict;
  }

  lemma {:induction false} BothActive(rows: seq<Row>)
    requires rows == [Row(true, true, ADDED, "1.0.1"), Row(true, true, KEPT, "1.0.1")]
    ensures Active(rows) == [ADDED, KEPT]
  {
    assert Active(rows[1..]) == [KEPT] + Active(rows[1..][1..]);
    assert Active(rows) == [ADDED] + Active(rows[1..]);
  }

  lemma {:induction false} FileOnAcme()
    ensures LocalFrom([], [ADDED, KEPT], ACME).Violation?
    ensures OpaVerdict(Some(BOOTSTRAP), [ADDED, KEPT], ACME).Returned?
  {
    assert RegoBlock(BOOTSTRAP.items, ACME) == {};
    assert [ADDED, KEPT][1..] == [KEPT];
    assert FirstDenied([KEPT], {}) == None;
  }

  lemma {:induction false} FileOnHigh()
    ensures LocalFrom([], [ADDED, KEPT], HIGH).Violation?
    ensures OpaVerdict(Some(BOOTSTRAP), [ADDED, KEPT], HIGH).Violation?
  {
    var block := RegoBlock(BOOTSTRAP.items, HIGH);
    assert BOOTSTRAP.items[3].id in block;
    assert [ADDED, KEPT][1..] == [KEPT];
    assert FirstDenied([KEPT], block) == Some(KEPT);
    assert FirstBlocked([KEPT], HIGH) == Some(KEPT);
    LocalNames([], [ADDED, KEPT], HIGH);
  }

  // ---- a query ----

  datatype Settings = Settings(enabled: bool, failClosed: bool, allowLocalFallback: bool)

  /** How the HTTP exchange with OPA goes: no usable response; a response that is not of the required
      shape; or an answer computed by the Rego policy over OPA's bundle. */
  datatype Exchange = NoResponse | WrongShape | Answered

  datatype Verdict = Decided(outcome: Outcome) | EvaluationError

  function BundleItems(opa: Option<Bundle>): seq<Item> {
    if opa.Some? then opa.value.items else []
  }

  /** PolicyService.evaluate_async: the verdict, and whether OPA was asked. */
  function Evaluate(s: Settings, st: State, ctx: Context, x: Exchange): (Verdict, bool) {
    if !s.enabled then (Decided(LocalFrom([], st.policies, ctx)), false)
    else if s.failClosed && !InSync(st) then (EvaluationError, false)
    else
      match x
      case WrongShape => (EvaluationError, true)
      case NoResponse =>
        if s.allowLocalFallback then (Decided(LocalFrom([], st.policies, ctx)), true) else (EvaluationError, true)
      case Answered =>
        (Decided(OpaVerdict(st.opa, st.policies, ctx)), true)
  }

  /** With fail-closed on, after every run of syncs and restarts: OPA is asked only when in sync; and a
      decision agrees with evaluating the cached policies locally if it is not OPA's, or OPA has not
      restarted since the last accepted push, or it restarted with a file that blocks the same policy
      first; and otherwise it does not. */
  lemma {:induction false} FailClosedAgrees(h: Hash, opa: Option<Bundle>, events: seq<Event>, s: Settings,
                                            ctx: Context, x: Exchange)
    requires Apart(h, RunKnown(h, Initial(opa), FIRST, events)) && DistinctEvents(events) && s.failClosed
    ensures var (end, since) := RunEvents(h, Initial(opa), Kept, events);
            var (verdict, asked) := Evaluate(s, end, ctx, x);
            && (asked ==> InSync(end))
            && (verdict.Decided? ==>
                  (Agree(LocalFrom([], end.policies, ctx), verdict.outcome)
                   <==> !asked || x != Answered || since == Kept || SameFirstBlock(since.bootstrap, end.policies, ctx)))
  {
    InitialInv(h, opa);
    InSyncIsSafe(h, Initial(opa), Kept, events, FIRST);
    var (end, since) := RunEvents(h, Initial(opa), Kept, events);
    if s.enabled && InSync(end) {
      if since == Kept {
        EvaluatorsAgree(end.opa.value.items, end.policies, ctx);
      } else {
        AgreeWhenSameFirst(BundleItems(since.bootstrap), end.policies, ctx);
      }
    }
    LocalAgreesWithItself([], end.policies, ctx);
  }

  lemma {:induction false} LocalAgreesWithItself(results: seq<Result>, ps: seq<Policy>, ctx: Context)
    requires AllAllowed(results)
    ensures Agree(LocalFrom(results, ps, ctx), LocalFrom(results, ps, ctx))
    decreases |ps|
  {
    if ps != [] {
      if !Matches(ps[0], ctx) {
        LocalAgreesWithItself(results, ps[1..], ctx);
      } else if !ShouldBlock(ps[0], ctx) {
        LocalAgreesWithItself(results + [ResultOf(ps[0], Allow)], ps[1..], ctx);
      }
    }
  }

  /** Whatever the settings, after every run: OPA is asked exactly if enabled and, with fail-closed on, the
      last push was accepted and was of the policies cached now; there is a decision exactly if OPA is not
      enabled, answers, or cannot be reached while falling back is allowed; and the decision is OPA's if it
      answered, and that of the cached policies if not. */
  lemma {:induction false} DecidedExactly(h: Hash, opa: Option<Bundle>, events: seq<Event>, s: Settings, ctx: Context,
                                          x: Exchange)
    ensures var end := RunEvents(h, Initial(opa), Kept, events).0;
            var (verdict, asked) := Evaluate(s, end, ctx, x);
            && (asked <==> s.enabled && (s.failClosed ==>
                  end.lastSyncOk == Some(true) && end.localHash.Some? && end.localHash == end.lastPushedHash))
            && (verdict.Decided? <==>
                  !s.enabled || (asked && (x == Answered || (x == NoResponse && s.allowLocalFallback))))
            && (verdict.Decided? ==>
                  verdict.outcome == if asked && x == Answered then OpaVerdict(end.opa, end.policies, ctx)
                                     else LocalFrom([], end.policies, ctx))
  {
  }

  /** The file is what a push of these four policies would have sent. */
  lemma {:induction false} BootstrapIsSerialized()
    ensures SerializeAll([
      Policy("high-sensitivity-onprem", Some("High sensitivity data must stay on-prem for finance tenant"),
             Condition(Some("HIGH"), Some("finance")), AllowOnpremOnly),
      Policy("deny-cloud-restricted", Some("Deny cloud for restricted segments"),
             Condition(None, Some("restricted-segment")), DenyCloud),
      Policy("medium-sensitivity-default", Some("Medium sensitivity allows cloud but warns (placeholder)"),
             Condition(Some("MEDIUM"), None), AllowAll),
      Policy("block-all-cloud-high", Some("Cloud services are forbidden for high sensitivity data across all tenants"),
             Condition(Some("HIGH"), None), DenyCloud)])
            == BOOTSTRAP.items
  {
  }

  lemma {:induction false} ActiveExactly(rows: seq<Row>, p: Policy)
    ensures p in Active(rows) <==> exists r :: r in rows && r.active && r.parses && r.policy == p
  {
    if rows != [] {
      assert rows == [rows[0]] + rows[1..];
      ActiveExactly(rows[1..], p);
    }
  }

  /** What a sync does: the active rows that parse are cached, under the first row's version; if enabled, OPA
      holds them unless the push is lost; and the push counts as accepted, with its hash, only if it was. */
  lemma {:induction false} SyncExactly(h: Hash, st: State, rows: seq<Row>, enabled: bool, push: Push)
    ensures var next := StepEvent(h, st, Sync(rows, enabled, push));
            && (forall p :: p in next.policies <==> exists r :: r in rows && r.active && r.parses && r.policy == p)
            && (rows != [] ==> next.version == rows[0].version) && (rows == [] ==> next.version == st.version)
            && next.localHash == Some(PolicyHash(h, next.policies, next.version))
            && (if enabled && push != FailedAndLost then Holds(next.opa, next.policies, next.version)
                else next.opa == st.opa)
            && next.lastSyncOk == (if enabled then Some(push == Accepted) else st.lastSyncOk)
            && next.lastPushedHash == (if enabled && push == Accepted then next.localHash else st.lastPushedHash)
  {
    var next := StepEvent(h, st, Sync(rows, enabled, push));
    forall p ensures p in next.policies <==> exists r :: r in rows && r.active && r.parses && r.policy == p {
      ActiveExactly(rows, p);
    }
    ItemsSame(next.policies);
  }
}
