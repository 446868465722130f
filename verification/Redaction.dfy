/** OutputGuardService.redact: every rule scans the text left by the rules before it, and its
    accepted matches are spliced out from right to left so that earlier offsets stay valid. */
module Redaction {
  import opened StringOrder

  /** A match: it covers the positions start .. end - 1. */
  datatype Span = Span(start: nat, end: nat)

  /** A detection rule: an ordered span finder (finditer), a validator and a type name. */
  datatype Rule = Rule(find: string -> seq<Span>, accept: (string, Span) -> bool, kind: string)

  datatype RedactionResult = RedactionResult(text: string, count: nat, types: seq<string>)

  /** What finditer gives for patterns that never match the empty string: spans in order,
      disjoint, not empty, inside from .. n. */
  ghost predicate Ordered(spans: seq<Span>, from: nat, n: nat)
    ensures Ordered(spans, from, n) ==> from <= n
  {
    if spans == [] then from <= n
    else from <= spans[0].start < spans[0].end && Ordered(spans[1..], spans[0].end, n)
  }

  lemma {:induction false} OrderedFromLower(spans: seq<Span>, from: nat, lower: nat, n: nat)
    requires Ordered(spans, from, n) && lower <= from
    ensures Ordered(spans, lower, n)
  {
  }

  ghost predicate WellBehaved(rule: Rule) {
    forall t :: Ordered(rule.find(t), 0, |t|)
  }

  ghost predicate AllWellBehaved(rules: seq<Rule>) {
    rules == [] || (WellBehaved(rules[0]) && AllWellBehaved(rules[1..]))
  }

  function Placeholder(kind: string): string {
    "[REDACTED:" + kind + "]"
  }

  function Accepted(rule: Rule, text: string, spans: seq<Span>): (r: seq<Span>)
    ensures forall s :: s in r <==> s in spans && rule.accept(text, s)
  {
    if spans == [] then []
    else if rule.accept(text, spans[0]) then [spans[0]] + Accepted(rule, text, spans[1..])
    else Accepted(rule, text, spans[1..])
  }

  /** The accepted matches of a rule on a text, in order. */
  function Hits(rule: Rule, text: string): seq<Span> {
    Accepted(rule, text, rule.find(text))
  }

  lemma {:induction false} AcceptedOrdered(rule: Rule, text: string, spans: seq<Span>, from: nat, n: nat)
    requires Ordered(spans, from, n)
    ensures Ordered(Accepted(rule, text, spans), from, n)
  {
    if spans != [] {
      AcceptedOrdered(rule, text, spans[1..], spans[0].end, n);
      if !rule.accept(text, spans[0]) {
        OrderedFromLower(Accepted(rule, text, spans[1..]), spans[0].end, from, n);
      }
    }
  }

  // ---- splicing, on sequences of anything ----

  function Splice<T>(s: seq<T>, span: Span, mark: seq<T>): seq<T>
    requires span.start <= span.end <= |s|
  {
    s[..span.start] + mark + s[span.end..]
  }

  /** The loop over reversed(matches): the last span is spliced first. */
  function SpliceAll<T>(s: seq<T>, from: nat, spans: seq<Span>, mark: seq<T>): (r: seq<T>)
    requires Ordered(spans, from, |s|)
    ensures from <= |r| && from <= |s| && r[..from] == s[..from]
    decreases spans
  {
    if spans == [] then s
    else
      var inner := SpliceAll(s, spans[0].end, spans[1..], mark);
      assert inner[..from] == inner[..spans[0].end][..from];
      assert s[..from] == s[..spans[0].end][..from];
      Splice(inner, spans[0], mark)
  }

  /** The one-pass reading: copy each gap, put the mark in place of each span. */
  function Rebuild<T>(s: seq<T>, from: nat, spans: seq<Span>, mark: seq<T>): seq<T>
    requires Ordered(spans, from, |s|)
    decreases spans
  {
    if spans == [] then s[from..]
    else s[from..spans[0].start] + mark + Rebuild(s, spans[0].end, spans[1..], mark)
  }

  lemma {:induction false} SpliceSplit<T>(inner: seq<T>, s: seq<T>, from: nat, span: Span, rest: seq<T>, mark: seq<T>)
    requires from <= span.start < span.end <= |s| && inner == s[..span.end] + rest
    ensures Splice(inner, span, mark) == s[..from] + (s[from..span.start] + mark + rest)
  {
    assert inner[..span.start] == s[..from] + s[from..span.start];
    assert inner[span.end..] == rest;
  }

  /** Splicing in place from the right equals rebuilding from the left. */
  lemma {:induction false} SpliceAllIsRebuild<T>(s: seq<T>, from: nat, spans: seq<Span>, mark: seq<T>)
    requires Ordered(spans, from, |s|)
    ensures from <= |s| && SpliceAll(s, from, spans, mark) == s[..from] + Rebuild(s, from, spans, mark)
    decreases spans
  {
    if spans == [] {
      assert s == s[..from] + s[from..];
    } else {
      var span := spans[0];
      SpliceAllIsRebuild(s, span.end, spans[1..], mark);
      var rest := Rebuild(s, span.end, spans[1..], mark);
      SpliceSplit(SpliceAll(s, span.end, spans[1..], mark), s, from, span, rest, mark);
    }
  }

  // ---- redact, on characters ----

  function ApplyRule(rule: Rule, text: string): string
    requires WellBehaved(rule)
  {
    AcceptedOrdered(rule, text, rule.find(text), 0, |text|);
    SpliceAll(text, 0, Hits(rule, text), Placeholder(rule.kind))
  }

  function RedactText(rules: seq<Rule>, text: string): string
    requires AllWellBehaved(rules)
  {
    if rules == [] then text else RedactText(rules[1..], ApplyRule(rules[0], text))
  }

  function RedactCount(rules: seq<Rule>, text: string): nat
    requires AllWellBehaved(rules)
  {
    if rules == [] then 0
    else |Hits(rules[0], text)| + RedactCount(rules[1..], ApplyRule(rules[0], text))
  }

  /** The labels of the rules that accepted at least one match. */
  function RedactLabels(rules: seq<Rule>, text: string): set<string>
    requires AllWellBehaved(rules)
  {
    if rules == [] then {}
    else
      (if Hits(rules[0], text) == [] then {} else {rules[0].kind})
      + RedactLabels(rules[1..], ApplyRule(rules[0], text))
  }

  ghost predicate Distinct<T(!new)>(s: seq<T>) {
    forall i, j :: 0 <= i < j < |s| ==> s[i] != s[j]
  }

  /** The list of type names after a rule of this kind has replaced something. */
  function Noted(types: seq<string>, kind: string): seq<string> {
    if kind in types then types else types + [kind]
  }

  lemma {:induction false} NotedKeepsDistinct(types: seq<string>, kind: string)
    requires Distinct(types)
    ensures Distinct(Noted(types, kind))
    ensures Elements(Noted(types, kind)) == Elements(types) + {kind}
  {
  }

  lemma {:induction false} AcceptedStep(rule: Rule, text: string, spans: seq<Span>, i: nat)
    requires i < |spans|
    ensures Accepted(rule, text, spans[i..])
            == (if rule.accept(text, spans[i]) then [spans[i]] else []) + Accepted(rule, text, spans[i + 1..])
  {
    assert spans[i..][1..] == spans[i + 1..];
  }

  ghost function EndBefore(spans: seq<Span>, i: nat): nat
    requires i <= |spans|
  {
    if i == 0 then 0 else spans[i - 1].end
  }

  lemma {:induction false} OrderedFrom(spans: seq<Span>, i: nat, n: nat)
    requires Ordered(spans, 0, n) && i <= |spans|
    ensures Ordered(spans[i..], EndBefore(spans, i), n)
    ensures i < |spans| ==> EndBefore(spans, i) <= spans[i].start < spans[i].end
  {
    if i > 0 {
      OrderedFrom(spans, i - 1, n);
      assert spans[i - 1..][1..] == spans[i..];
    } else {
      assert spans[0..] == spans;
    }
  }

  /** The inner loop once the matches from i on have been looked at: done are the accepted ones. */
  ghost predicate Spliced(rule: Rule, text: string, matches: seq<Span>, i: nat, done: seq<Span>, now: string) {
    && i <= |matches| && done == Accepted(rule, text, matches[i..])
    && Ordered(done, EndBefore(matches, i), |text|)
    && now == SpliceAll(text, EndBefore(matches, i), done, Placeholder(rule.kind))
  }

  lemma {:induction false} NothingSpliced(rule: Rule, text: string, matches: seq<Span>)
    requires Ordered(matches, 0, |text|)
    ensures Spliced(rule, text, matches, |matches|, [], text)
  {
    OrderedFrom(matches, |matches|, |text|);
  }

  /** One more match looked at: spliced in front of those behind it, or passed over. */
  lemma {:induction false} SpliceNext(rule: Rule, text: string, matches: seq<Span>, i: nat, done: seq<Span>,
                                      now: string)
    requires i < |matches| && Ordered(matches, 0, |text|) && Spliced(rule, text, matches, i + 1, done, now)
    ensures var m := matches[i];
            && m.start <= m.end <= |now|
            && if rule.accept(text, m) then
                 Spliced(rule, text, matches, i, [m] + done, Splice(now, m, Placeholder(rule.kind)))
               else Spliced(rule, text, matches, i, done, now)
  {
    AcceptedStep(rule, text, matches, i);
    OrderedFrom(matches, i, |text|);
    OrderedFromLower(done, matches[i].end, EndBefore(matches, i), |text|);
    assert ([matches[i]] + done)[1..] == done;
    assert [] + done == done;
  }

  lemma {:induction false} AllSpliced(rule: Rule, text: string, done: seq<Span>, now: string)
    requires WellBehaved(rule) && Spliced(rule, text, rule.find(text), 0, done, now)
    ensures done == Hits(rule, text) && now == ApplyRule(rule, text)
  {
    assert rule.find(text)[0..] == rule.find(text);
  }

  /** The inner loop: one rule's matches, last to first. */
  method RedactOneRule(rule: Rule, text: string, count: nat, types: seq<string>)
      returns (resultText: string, newCount: nat, newTypes: seq<string>)
    requires WellBehaved(rule)
    ensures resultText == ApplyRule(rule, text)
    ensures newCount == count + |Hits(rule, text)|
    ensures newTypes == if Hits(rule, text) == [] then types else Noted(types, rule.kind)
  {
    hide Spliced, Placeholder, SpliceAll, Accepted, Hits, ApplyRule;
    resultText, newCount, newTypes := text, count, types;
    var matches := rule.find(text);
    assert Ordered(matches, 0, |text|);
    hide WellBehaved, Ordered;
    var placeholder := Placeholder(rule.kind);
    ghost var done: seq<Span> := [];
    var i := |matches|;
    NothingSpliced(rule, text, matches);
    while i > 0
      invariant 0 <= i <= |matches|
      invariant Spliced(rule, text, matches, i, done, resultText)
      invariant newCount == count + |done|
      invariant newTypes == if done == [] then types else Noted(types, rule.kind)
    {
      i := i - 1;
      var m := matches[i];
      SpliceNext(rule, text, matches, i, done, resultText);
      if !rule.accept(text, m) {
        continue;
      }
      done := [m] + done;
      resultText := resultText[..m.start] + placeholder + resultText[m.end..];
      newCount := newCount + 1;
      if rule.kind !in newTypes {
        newTypes := newTypes + [rule.kind];
      }
    }
    AllSpliced(rule, text, done, resultText);
  }

  /** What is left to do: redacting the text so far with the remaining rules completes the
      redaction of the original text. */
  ghost predicate Progress(rules: seq<Rule>, text: string, rest: seq<Rule>, now: string, count: nat, types: seq<string>)
  {
    && AllWellBehaved(rules) && AllWellBehaved(rest) && Distinct(types)
    && RedactText(rules, text) == RedactText(rest, now)
    && RedactCount(rules, text) == count + RedactCount(rest, now)
    && RedactLabels(rules, text) == Elements(types) + RedactLabels(rest, now)
  }

  lemma {:induction false} NoProgress(rules: seq<Rule>, text: string)
    requires AllWellBehaved(rules)
    ensures Progress(rules, text, rules, text, 0, [])
  {
    assert Elements([]) + RedactLabels(rules, text) == RedactLabels(rules, text);
  }

  lemma {:induction false} AllDone(rules: seq<Rule>, text: string, now: string, count: nat, types: seq<string>)
    requires AllWellBehaved(rules) && Progress(rules, text, rules[|rules|..], now, count, types)
    ensures Distinct(types) && now == RedactText(rules, text) && count == RedactCount(rules, text)
    ensures Elements(types) == RedactLabels(rules, text)
  {
    assert Elements(types) + {} == Elements(types);
  }

  lemma {:induction false} RedactUnfold(rules: seq<Rule>, text: string)
    requires AllWellBehaved(rules) && rules != []
    ensures WellBehaved(rules[0]) && AllWellBehaved(rules[1..])
    ensures RedactText(rules, text) == RedactText(rules[1..], ApplyRule(rules[0], text))
    ensures RedactCount(rules, text) == |Hits(rules[0], text)| + RedactCount(rules[1..], ApplyRule(rules[0], text))
    ensures RedactLabels(rules, text)
            == (if Hits(rules[0], text) == [] then {} else {rules[0].kind})
               + RedactLabels(rules[1..], ApplyRule(rules[0], text))
  {
    hide WellBehaved, ApplyRule, Hits;
  }

  lemma {:induction false} UnionAssoc(a: set<string>, b: set<string>, c: set<string>)
    ensures a + (b + c) == (a + b) + c
  {
  }

  lemma {:induction false} UnionEmpty(a: set<string>)
    ensures a + {} == a
  {
  }

  lemma {:induction false} ProgressStep(rules: seq<Rule>, text: string, rest: seq<Rule>, now: string, count: nat,
                                        types: seq<string>)
    requires Progress(rules, text, rest, now, count, types) && rest != []
    ensures WellBehaved(rest[0])
    ensures Progress(rules, text, rest[1..], ApplyRule(rest[0], now), count + |Hits(rest[0], now)|,
                     if Hits(rest[0], now) == [] then types else Noted(types, rest[0].kind))
  {
    RedactUnfold(rest, now);
    NotedKeepsDistinct(types, rest[0].kind);
    hide WellBehaved, AllWellBehaved, RedactText, RedactCount, RedactLabels, ApplyRule, Hits, Noted, Distinct, Elements;
    var added := if Hits(rest[0], now) == [] then {} else {rest[0].kind};
    UnionAssoc(Elements(types), added, RedactLabels(rest[1..], ApplyRule(rest[0], now)));
    UnionEmpty(Elements(types));
  }

  /** OutputGuardService.redact. */
  method Redact(rules: seq<Rule>, text: string) returns (result: RedactionResult)
    requires AllWellBehaved(rules)
    ensures result.text == RedactText(rules, text)
    ensures result.count == RedactCount(rules, text)
    ensures Ascending(result.types) && Elements(result.types) == RedactLabels(rules, text)
  {
    hide Progress, RedactText, RedactCount, RedactLabels, ApplyRule, Hits, Noted;
    var types: seq<string> := [];
    var count: nat := 0;
    var resultText := text;
    assert rules[0..] == rules;
    NoProgress(rules, text);
    for i := 0 to |rules|
      invariant Progress(rules, text, rules[i..], resultText, count, types)
    {
      ProgressStep(rules, text, rules[i..], resultText, count, types);
      assert rules[i..][1..] == rules[i + 1..];
      resultText, count, types := RedactOneRule(rules[i], resultText, count, types);
    }
    AllDone(rules, text, resultText, count, types);
    SortAscending(types);
    result := RedactionResult(resultText, count, Sort(types));
  }

  // ---- what is counted ----

  /** Rules in two groups, one after the other: the second starts with the text of the first; counts add up,
      labels come together. */
  lemma {:induction false} RulesInGroups(a: seq<Rule>, b: seq<Rule>, text: string)
    requires AllWellBehaved(a) && AllWellBehaved(b)
    ensures AllWellBehaved(a + b)
    ensures RedactText(a + b, text) == RedactText(b, RedactText(a, text))
    ensures RedactCount(a + b, text) == RedactCount(a, text) + RedactCount(b, RedactText(a, text))
    ensures RedactLabels(a + b, text) == RedactLabels(a, text) + RedactLabels(b, RedactText(a, text))
  {
    hide WellBehaved, ApplyRule, Hits;
    if a == [] {
      assert a + b == b;
    } else {
      assert (a + b)[0] == a[0] && (a + b)[1..] == a[1..] + b;
      RulesInGroups(a[1..], b, ApplyRule(a[0], text));
    }
  }

  /** One rule: each match its validator accepts counts once, the label is noted if there is one, and else the
      text is as before. */
  lemma {:induction false} OneRuleCounts(rule: Rule, text: string)
    requires WellBehaved(rule)
    ensures AllWellBehaved([rule])
    ensures RedactCount([rule], text) == |Accepted(rule, text, rule.find(text))|
    ensures (rule.kind in RedactLabels([rule], text)) <==> exists m :: m in rule.find(text) && rule.accept(text, m)
    ensures RedactLabels([rule], text) <= {rule.kind}
    ensures RedactLabels([rule], text) == {} ==> RedactText([rule], text) == text && RedactCount([rule], text) == 0
  {
    assert [rule][1..] == [];
    assert RedactText([rule], text) == RedactText([], ApplyRule(rule, text)) == ApplyRule(rule, text);
    assert RedactCount([rule], text) == |Hits(rule, text)| + RedactCount([], ApplyRule(rule, text));
    var hits := Hits(rule, text);
    assert hits != [] ==> hits[0] in hits;
  }

  lemma {:induction false} AcceptedOnce(rule: Rule, text: string, spans: seq<Span>, m: Span)
    ensures multiset(Accepted(rule, text, spans))[m] == if rule.accept(text, m) then multiset(spans)[m] else 0
  {
    if spans != [] {
      AcceptedOnce(rule, text, spans[1..], m);
      assert spans == [spans[0]] + spans[1..];
    }
  }
}
