/** The two policy evaluators: the Python loop over the local cache, and OPA running the Rego policy
    over the bundle pushed to it. */
module PolicyEngine {
  import opened Options

  datatype Effect = AllowOnpremOnly | DenyCloud | AllowAll | DenyAll

  datatype Condition = Condition(sensitivity: Option<string>, tenant: Option<string>)

  datatype Policy = Policy(id: string, description: Option<string>, condition: Condition, effect: Effect)

  /** A canonicalised request context. */
  datatype Context = Context(serviceType: string, sensitivity: Option<string>, tenant: Option<string>)

  datatype Decision = Allow | Deny

  datatype Result = Result(policyId: string, effect: Effect, decision: Decision, description: Option<string>)

  /** Violation is PolicyViolationError, with the results gathered before it was raised. */
  datatype Outcome =
    | Returned(results: seq<Result>)
    | Violation(policyId: string, description: string, results: seq<Result>)

  function Describe(p: Policy): string {
    if p.description.Some? && p.description.value != "" then p.description.value else "No description provided"
  }

  function ResultOf(p: Policy, d: Decision): Result {
    Result(p.id, p.effect, d, p.description)
  }

  // ---- the Python evaluator ----

  /** PolicyService._matches. */
  predicate Matches(p: Policy, ctx: Context) {
    && (p.condition.sensitivity.Some? ==> ctx.sensitivity == p.condition.sensitivity)
    && (p.condition.tenant.Some? ==> ctx.tenant == p.condition.tenant)
  }

  /** PolicyService._should_block. */
  predicate ShouldBlock(p: Policy, ctx: Context) {
    match p.effect
    case DenyAll => true
    case DenyCloud => ctx.serviceType == "cloud"
    case AllowOnpremOnly => ctx.serviceType != "on-prem"
    case AllowAll => false
  }

  predicate Blocks(p: Policy, ctx: Context) {
    Matches(p, ctx) && ShouldBlock(p, ctx)
  }

  /** The loop of _evaluate_local from the results gathered so far. */
  function LocalFrom(results: seq<Result>, ps: seq<Policy>, ctx: Context): Outcome
    decreases |ps|
  {
    if ps == [] then Returned(results)
    else if !Matches(ps[0], ctx) then LocalFrom(results, ps[1..], ctx)
    else if ShouldBlock(ps[0], ctx)
    then Violation(ps[0].id, Describe(ps[0]), results + [ResultOf(ps[0], Deny)])
    else LocalFrom(results + [ResultOf(ps[0], Allow)], ps[1..], ctx)
  }

  /** PolicyService._evaluate_local. */
  method EvaluateLocal(policies: seq<Policy>, ctx: Context) returns (outcome: Outcome)
    ensures outcome == LocalFrom([], policies, ctx)
  {
    var results: seq<Result> := [];
    assert policies[0..] == policies;
    for i := 0 to |policies|
      invariant LocalFrom(results, policies[i..], ctx) == LocalFrom([], policies, ctx)
    {
      assert policies[i..][1..] == policies[i + 1..];
      var p := policies[i];
      if !Matches(p, ctx) {
        continue;
      }
      var decision := Allow;
      if ShouldBlock(p, ctx) {
        decision := Deny;
      }
      results := results + [ResultOf(p, decision)];
      if decision == Deny {
        return Violation(p.id, Describe(p), results);
      }
    }
    outcome := Returned(results);
  }

  // ---- the evaluator that asks OPA ----

  /** The results _evaluate_with_opa lists for an answer that blocks the given ids. */
  function OpaResults(ps: seq<Policy>, ctx: Context, block: set<string>): seq<Result> {
    if ps == [] then []
    else if ps[0].id in block then [ResultOf(ps[0], Deny)] + OpaResults(ps[1..], ctx, block)
    else if Matches(ps[0], ctx) then [ResultOf(ps[0], Allow)] + OpaResults(ps[1..], ctx, block)
    else OpaResults(ps[1..], ctx, block)
  }

  /** The first policy whose id is blocked. */
  function FirstDenied(ps: seq<Policy>, block: set<string>): Option<Policy> {
    if ps == [] then None
    else if ps[0].id in block then Some(ps[0])
    else FirstDenied(ps[1..], block)
  }

  function OpaOutcome(ps: seq<Policy>, ctx: Context, allow: bool, block: set<string>): Outcome {
    match FirstDenied(ps, block)
    case Some(first) =>
      if allow then Returned(OpaResults(ps, ctx, block))
      else Violation(first.id, Describe(first), OpaResults(ps, ctx, block))
    case None => Returned(OpaResults(ps, ctx, block))
  }

  /** The part of PolicyService._evaluate_with_opa behind the parsed answer. */
  method EvaluateWithOpa(policies: seq<Policy>, ctx: Context, allow: bool,
                         block: set<string>) returns (outcome: Outcome)
    ensures outcome == OpaOutcome(policies, ctx, allow, block)
  {
    var evaluation: seq<Result> := [];
    var denied: seq<Policy> := [];
    assert policies[0..] == policies;
    for i := 0 to |policies|
      invariant evaluation + OpaResults(policies[i..], ctx, block) == OpaResults(policies, ctx, block)
      invariant FirstDenied(policies, block)
                == if denied == [] then FirstDenied(policies[i..], block) else Some(denied[0])
    {
      assert policies[i..][1..] == policies[i + 1..];
      var p := policies[i];
      if p.id in block {
        evaluation := evaluation + [ResultOf(p, Deny)];
        denied := denied + [p];
      } else if Matches(p, ctx) {
        evaluation := evaluation + [ResultOf(p, Allow)];
      }
    }
    assert OpaResults(policies[|policies|..], ctx, block) == [];
    if !allow && denied != [] {
      var first := denied[0];
      return Violation(first.id, Describe(first), evaluation);
    }
    outcome := Returned(evaluation);
  }

  // ---- the Rego policy ----

  /** A policy as pushed: _serialize_policy. */
  datatype Item = Item(id: string, description: Option<string>, effect: string,
                       sensitivity: Option<string>, tenant: Option<string>)

  function EffectValue(e: Effect): string {
    match e
    case AllowOnpremOnly => "allow_onprem_only"
    case DenyCloud => "deny_cloud"
    case AllowAll => "allow_all"
    case DenyAll => "deny_all"
  }

  function Serialize(p: Policy): Item {
    Item(p.id, p.description, EffectValue(p.effect), p.condition.sensitivity, p.condition.tenant)
  }

  predicate FieldOk(wanted: Option<string>, actual: Option<string>) {
    wanted == None || wanted == actual
  }

  predicate RegoMatches(item: Item, ctx: Context) {
    FieldOk(item.sensitivity, ctx.sensitivity) && FieldOk(item.tenant, ctx.tenant)
  }

  predicate RegoShouldBlock(item: Item, ctx: Context) {
    || item.effect == "deny_all"
    || (item.effect == "deny_cloud" && ctx.serviceType == "cloud")
    || (item.effect == "allow_onprem_only" && ctx.serviceType != "on-prem")
  }

  /** The partial set block; with no bundle the policy list is empty. */
  function RegoBlock(items: seq<Item>, ctx: Context): set<string> {
    set i | 0 <= i < |items| && RegoMatches(items[i], ctx) && RegoShouldBlock(items[i], ctx) :: items[i].id
  }

  /** allow: true by default, false if something is blocked. */
  predicate RegoAllow(items: seq<Item>, ctx: Context) {
    RegoBlock(items, ctx) == {}
  }

  lemma {:induction false} RegoAgreesOnPolicy(p: Policy, ctx: Context)
    ensures RegoMatches(Serialize(p), ctx) <==> Matches(p, ctx)
    ensures RegoShouldBlock(Serialize(p), ctx) <==> ShouldBlock(p, ctx)
  {
    EffectValuesDiffer();
  }

  lemma {:induction false} EffectValuesDiffer()
    ensures forall a, b :: EffectValue(a) == EffectValue(b) ==> a == b
  {
    assert "allow_onprem_only"[6] == 'o' && "allow_all"[6] == 'a';
    assert "deny_cloud"[5] == 'c' && "deny_all"[5] == 'a';
    assert "allow_onprem_only"[0] == 'a' && "allow_all"[0] == 'a' && "deny_cloud"[0] == 'd' && "deny_all"[0] == 'd';
  }

  lemma {:induction false} SerializeInjective(p: Policy, q: Policy)
    ensures Serialize(p) == Serialize(q) <==> p == q
  {
    EffectValuesDiffer();
  }

  // ---- agreement ----

  ghost predicate DistinctIds(ps: seq<Policy>) {
    forall i, j :: 0 <= i < j < |ps| ==> ps[i].id != ps[j].id
  }

  /** items are the serialised policies, in any order. */
  ghost predicate SameSet(items: seq<Item>, ps: seq<Policy>) {
    forall item :: item in items <==> exists p :: p in ps && Serialize(p) == item
  }

  /** OPA blocks the id of a policy exactly if the Python evaluator blocks the policy. */
  ghost predicate BlocksExactly(ps: seq<Policy>, ctx: Context, block: set<string>) {
    forall p :: p in ps ==> (p.id in block <==> Blocks(p, ctx))
  }

  lemma {:induction false} RegoBlocksExactly(items: seq<Item>, ps: seq<Policy>, ctx: Context)
    requires DistinctIds(ps) && SameSet(items, ps)
    ensures BlocksExactly(ps, ctx, RegoBlock(items, ctx))
    ensures RegoAllow(items, ctx) <==> forall p :: p in ps ==> !Blocks(p, ctx)
  {
    var block := RegoBlock(items, ctx);
    forall p | p in ps ensures p.id in block <==> Blocks(p, ctx) {
      RegoAgreesOnPolicy(p, ctx);
      if p.id in block {
        var i :| 0 <= i < |items| && RegoMatches(items[i], ctx) && RegoShouldBlock(items[i], ctx)
                 && items[i].id == p.id;
        assert items[i] in items;
        var q :| q in ps && Serialize(q) == items[i];
        SameIdSame(ps, p, q);
      }
      if Blocks(p, ctx) {
        assert Serialize(p) in items;
        var i :| 0 <= i < |items| && items[i] == Serialize(p);
        assert items[i].id in block;
      }
    }
    if block != {} {
      var id :| id in block;
      var i :| 0 <= i < |items| && RegoMatches(items[i], ctx) && RegoShouldBlock(items[i], ctx) && items[i].id == id;
      assert items[i] in items;
      var q :| q in ps && Serialize(q) == items[i];
      assert q.id in block;
    }
  }

  lemma {:induction false} SameIdSame(ps: seq<Policy>, p: Policy, q: Policy)
    requires DistinctIds(ps) && p in ps && q in ps && p.id == q.id
    ensures p == q
  {
  }

  /** What agreement means: both return the same list; or both raise, naming the same policy, and the
      local list is the part of OPA's list up to its first DENY. */
  ghost predicate Agree(local: Outcome, opa: Outcome) {
    match (local, opa)
    case (Returned(a), Returned(b)) => a == b
    case (Violation(p, d, a), Violation(q, e, b)) =>
      && p == q && d == e && a <= b && a != [] && a[|a| - 1].decision == Deny
      && forall i :: 0 <= i < |a| - 1 ==> a[i].decision == Allow
    case _ => false
  }

  ghost predicate AllAllowed(results: seq<Result>) {
    forall i :: 0 <= i < |results| ==> results[i].decision == Allow
  }

  /** The first policy that blocks by the Python evaluator. */
  function FirstBlocked(ps: seq<Policy>, ctx: Context): Option<Policy> {
    if ps == [] then None
    else if Blocks(ps[0], ctx) then Some(ps[0])
    else FirstBlocked(ps[1..], ctx)
  }

  lemma {:induction false} LocalNames(results: seq<Result>, ps: seq<Policy>, ctx: Context)
    ensures match FirstBlocked(ps, ctx)
            case None => LocalFrom(results, ps, ctx).Returned?
            case Some(p) =>
              p in ps && LocalFrom(results, ps, ctx).Violation? && LocalFrom(results, ps, ctx).policyId == p.id
    decreases |ps|
  {
    if ps != [] && !Blocks(ps[0], ctx) {
      LocalNames(if Matches(ps[0], ctx) then results + [ResultOf(ps[0], Allow)] else results, ps[1..], ctx);
    }
  }

  lemma {:induction false} DeniedIn(ps: seq<Policy>, block: set<string>)
    ensures FirstDenied(ps, block).Some?
            ==> FirstDenied(ps, block).value in ps && FirstDenied(ps, block).value.id in block
  {
    if ps != [] && ps[0].id !in block {
      DeniedIn(ps[1..], block);
    }
  }

  lemma {:induction false} DistinctRest(ps: seq<Policy>)
    requires DistinctIds(ps) && ps != []
    ensures DistinctIds(ps[1..]) && forall q :: q in ps[1..] ==> q.id != ps[0].id
  {
  }

  /** What _evaluate_with_opa makes of an answer, behind results gathered before. */
  function OpaFrom(results: seq<Result>, ps: seq<Policy>, ctx: Context, block: set<string>): Outcome {
    match FirstDenied(ps, block)
    case None => Returned(results + OpaResults(ps, ctx, block))
    case Some(first) => Violation(first.id, Describe(first), results + OpaResults(ps, ctx, block))
  }

  lemma {:induction false} AgreeFrom(results: seq<Result>, ps: seq<Policy>, ctx: Context, block: set<string>)
    requires DistinctIds(ps) && AllAllowed(results)
    ensures Agree(LocalFrom(results, ps, ctx), OpaFrom(results, ps, ctx, block))
            <==> FirstBlocked(ps, ctx) == FirstDenied(ps, block)
    decreases |ps|
  {
    if ps == [] {
      assert results + [] == results;
    } else {
      var p, rest := ps[0], ps[1..];
      DistinctRest(ps);
      LocalNames(results, ps, ctx);
      DeniedIn(rest, block);
      var deny, allow := [ResultOf(p, Deny)], [ResultOf(p, Allow)];
      if p.id in block {
        LocalNames(results, rest, ctx);
        assert results + OpaResults(ps, ctx, block) == (results + deny) + OpaResults(rest, ctx, block);
      } else if !Blocks(p, ctx) {
        var next := if Matches(p, ctx) then results + allow else results;
        AgreeFrom(next, rest, ctx, block);
        assert (results + allow) + OpaResults(rest, ctx, block) == results + (allow + OpaResults(rest, ctx, block));
      }
    }
  }

  /** Whatever items OPA holds, asking it and evaluating locally agree exactly if the first policy that
      blocks by the local rules is the first one whose id the items block. */
  lemma {:induction false} AgreeWhenSameFirst(items: seq<Item>, ps: seq<Policy>, ctx: Context)
    requires DistinctIds(ps)
    ensures Agree(LocalFrom([], ps, ctx), OpaOutcome(ps, ctx, RegoAllow(items, ctx), RegoBlock(items, ctx)))
            <==> FirstBlocked(ps, ctx) == FirstDenied(ps, RegoBlock(items, ctx))
  {
    var block := RegoBlock(items, ctx);
    DeniedIn(ps, block);
    AgreeFrom([], ps, ctx, block);
    assert [] + OpaResults(ps, ctx, block) == OpaResults(ps, ctx, block);
  }

  lemma {:induction false} SameFirst(ps: seq<Policy>, ctx: Context, block: set<string>)
    requires BlocksExactly(ps, ctx, block)
    ensures FirstBlocked(ps, ctx) == FirstDenied(ps, block)
  {
    if ps != [] {
      assert ps == [ps[0]] + ps[1..];
      assert BlocksExactly(ps[1..], ctx, block);
      SameFirst(ps[1..], ctx, block);
    }
  }

  /** If OPA holds the same policies, in any order, asking it and evaluating locally agree. */
  lemma {:induction false} EvaluatorsAgree(items: seq<Item>, ps: seq<Policy>, ctx: Context)
    requires DistinctIds(ps) && SameSet(items, ps)
    ensures Agree(LocalFrom([], ps, ctx), OpaOutcome(ps, ctx, RegoAllow(items, ctx), RegoBlock(items, ctx)))
  {
    RegoBlocksExactly(items, ps, ctx);
    SameFirst(ps, ctx, RegoBlock(items, ctx));
    AgreeWhenSameFirst(items, ps, ctx);
  }

  // ---- what the evaluators answer ----

  /** The context meets the policy's condition; a part that is not given is met. */
  ghost predicate Applies(p: Policy, ctx: Context) {
    && (p.condition.sensitivity == None || p.condition.sensitivity == ctx.sensitivity)
    && (p.condition.tenant == None || p.condition.tenant == ctx.tenant)
  }

  /** And its effect forbids the service. */
  ghost predicate Forbids(p: Policy, ctx: Context) {
    && Applies(p, ctx)
    && (|| p.effect == DenyAll
        || (p.effect == DenyCloud && ctx.serviceType == "cloud")
        || (p.effect == AllowOnpremOnly && ctx.serviceType != "on-prem"))
  }

  lemma {:induction false} ForbidsIsBlocks(p: Policy, ctx: Context)
    ensures Matches(p, ctx) <==> Applies(p, ctx)
    ensures Blocks(p, ctx) <==> Forbids(p, ctx)
  {
  }

  /** p's line in the list of results. */
  ghost predicate Lists(r: Result, p: Policy, d: Decision) {
    r.policyId == p.id && r.effect == p.effect && r.decision == d && r.description == p.description
  }

  /** results are the lines of these policies, in order. */
  ghost predicate ListsAll(results: seq<Result>, ps: seq<Policy>, d: Decision) {
    |results| == |ps| && forall i :: 0 <= i < |ps| ==> Lists(results[i], ps[i], d)
  }

  ghost function Applying(ps: seq<Policy>, ctx: Context): seq<Policy> {
    if ps == [] then [] else (if Applies(ps[0], ctx) then [ps[0]] else []) + Applying(ps[1..], ctx)
  }

  /** A violation of p: its id, and its description if it has one. */
  ghost predicate Names(o: Outcome, p: Policy) {
    && o.Violation? && o.policyId == p.id
    && (p.description == None || p.description == Some("") ==> o.description == "No description provided")
    && (p.description.Some? && p.description.value != "" ==> o.description == p.description.value)
  }

  /** How many policies stand before the first that forbids; all of them if none does. */
  ghost function FirstForbidding(ps: seq<Policy>, ctx: Context): (n: nat)
    ensures n <= |ps|
    ensures n < |ps| ==> Forbids(ps[n], ctx)
    ensures forall i :: 0 <= i < n ==> !Forbids(ps[i], ctx)
  {
    if ps == [] || Forbids(ps[0], ctx) then 0 else 1 + FirstForbidding(ps[1..], ctx)
  }

  /** A list of results and the outcome of looking at these policies behind it. */
  ghost predicate Outcomes(o: Outcome, front: seq<Policy>, ps: seq<Policy>, ctx: Context) {
    var n := FirstForbidding(ps, ctx);
    var listed := front + Applying(ps[..n], ctx);
    if n == |ps| then o.Returned? && ListsAll(o.results, listed, Allow)
    else
      && Names(o, ps[n]) && |o.results| == |listed| + 1
      && ListsAll(o.results[..|listed|], listed, Allow) && Lists(o.results[|listed|], ps[n], Deny)
  }

  lemma {:induction false} LocalLists(results: seq<Result>, front: seq<Policy>, ps: seq<Policy>, ctx: Context)
    requires ListsAll(results, front, Allow)
    ensures Outcomes(LocalFrom(results, ps, ctx), front, ps, ctx)
    decreases |ps|
  {
    if ps == [] {
      assert front + [] == front;
    } else {
      var p := ps[0];
      ForbidsIsBlocks(p, ctx);
      if Forbids(p, ctx) {
        assert ps[..0] == [] && front + [] == front;
        assert (results + [ResultOf(p, Deny)])[..|front|] == results;
      } else {
        var next := if Applies(p, ctx) then results + [ResultOf(p, Allow)] else results;
        var also := if Applies(p, ctx) then [p] else [];
        var n := FirstForbidding(ps[1..], ctx);
        assert ps[..n + 1][1..] == ps[1..][..n];
        assert (front + also) + Applying(ps[1..][..n], ctx) == front + Applying(ps[..n + 1], ctx);
        hide Forbids, Matches, ShouldBlock, Names;
        LocalLists(next, front + also, ps[1..], ctx);
      }
    }
  }

  /** Local evaluation raises exactly if a policy applies and forbids the service: for the first such policy,
      with the lines of those before it that apply and its own. Else it lists all that apply, as allowed. */
  lemma {:induction false} LocalExactly(ps: seq<Policy>, ctx: Context)
    ensures var o := LocalFrom([], ps, ctx);
            var n := FirstForbidding(ps, ctx);
            var listed := Applying(ps[..n], ctx);
            if forall p :: p in ps ==> !Forbids(p, ctx)
            then n == |ps| && o.Returned? && ListsAll(o.results, listed, Allow)
            else
              && n < |ps| && Names(o, ps[n]) && |o.results| == |listed| + 1
              && ListsAll(o.results[..|listed|], listed, Allow) && Lists(o.results[|listed|], ps[n], Deny)
  {
    hide Forbids, Names, Lists;
    LocalLists([], [], ps, ctx);
    var listed := Applying(ps[..FirstForbidding(ps, ctx)], ctx);
    assert [] + listed == listed;
    hide LocalFrom, Applying;
    NoneForbids(ps, ctx);
  }

  lemma {:induction false} NoneForbids(ps: seq<Policy>, ctx: Context)
    ensures FirstForbidding(ps, ctx) == |ps| <==> forall p :: p in ps ==> !Forbids(p, ctx)
  {
    hide Forbids;
    if FirstForbidding(ps, ctx) < |ps| {
      assert ps[FirstForbidding(ps, ctx)] in ps;
    }
  }

  /** A policy's line in the list made of OPA's answer: DENY if its id is blocked, ALLOW if it is not and the
      policy applies, and no line otherwise. */
  ghost predicate OpaLine(r: Result, p: Policy, ctx: Context, block: set<string>) {
    if p.id in block then Lists(r, p, Deny) else Applies(p, ctx) && Lists(r, p, Allow)
  }

  lemma {:induction false} OpaLines(ps: seq<Policy>, ctx: Context, block: set<string>, r: Result)
    ensures r in OpaResults(ps, ctx, block) <==> exists p :: p in ps && OpaLine(r, p, ctx, block)
  {
    if ps != [] {
      assert ps == [ps[0]] + ps[1..];
      ForbidsIsBlocks(ps[0], ctx);
      OpaLines(ps[1..], ctx, block, r);
      assert r in OpaResults(ps, ctx, block) <==> OpaLine(r, ps[0], ctx, block) || r in OpaResults(ps[1..], ctx, block);
    }
  }

  /** With OPA's answer: raised exactly if it does not allow and blocks the id of some policy, the first such
      policy named; and the list says of every policy what the answer says of it. */
  lemma {:induction false} OpaExactly(ps: seq<Policy>, ctx: Context, allow: bool, block: set<string>)
    ensures var o := OpaOutcome(ps, ctx, allow, block);
            && (forall r :: r in o.results <==> exists p :: p in ps && OpaLine(r, p, ctx, block))
            && (o.Returned? <==> allow || forall p :: p in ps ==> p.id !in block)
            && (o.Violation? ==> exists i :: 0 <= i < |ps| && ps[i].id in block && Names(o, ps[i])
                                             && forall j :: 0 <= j < i ==> ps[j].id !in block)
  {
    forall r
      ensures r in OpaOutcome(ps, ctx, allow, block).results <==> exists p :: p in ps && OpaLine(r, p, ctx, block)
    {
      OpaLines(ps, ctx, block, r);
    }
    FirstDeniedFirst(ps, block);
  }

  lemma {:induction false} FirstDeniedFirst(ps: seq<Policy>, block: set<string>)
    ensures FirstDenied(ps, block) == None <==> forall p :: p in ps ==> p.id !in block
    ensures FirstDenied(ps, block).Some? ==>
              exists i :: 0 <= i < |ps| && ps[i] == FirstDenied(ps, block).value && ps[i].id in block
                          && forall j :: 0 <= j < i ==> ps[j].id !in block
  {
    if ps != [] {
      assert ps == [ps[0]] + ps[1..];
      FirstDeniedFirst(ps[1..], block);
      if ps[0].id !in block && FirstDenied(ps[1..], block).Some? {
        var i :| 0 <= i < |ps[1..]| && ps[1..][i] == FirstDenied(ps[1..], block).value && ps[1..][i].id in block
                 && forall j :: 0 <= j < i ==> ps[1..][j].id !in block;
        assert ps[i + 1] == ps[1..][i];
        assert forall j :: 0 < j < i + 1 ==> ps[j] == ps[1..][j - 1];
      }
    }
  }
}
