/** The streaming side of the output guard: a 30-character tail of the redacted text is carried
    into the next scan. Each character is followed from the provider's text to the client, so that
    what is shown can be compared with what was received, position by position. SSN here means
    ddd-dd-dddd between non-word characters or text ends. */
module SsnStream {
  import opened Redaction

  const CARRY_SIZE: nat := 30
  const SSN_LENGTH: nat := 11

  // ---- the SSN rule ----

  /** The character classes \d and \w of Python's re module, Unicode included. */
  datatype CharClass = CharClass(digit: char -> bool, word: char -> bool)

  /** All that is used of them: \d lies inside \w, and '-' and ']' are not word characters. */
  ghost predicate RegexClasses(k: CharClass) {
    && (forall c :: k.digit(c) ==> k.word(c))
    && !k.word('-') && !k.word(']')
    && Quiet(k, Placeholder("SSN"))
  }

  /** A placeholder holds neither digits nor '-'. */
  ghost predicate Quiet(k: CharClass, mark: string) {
    && mark != [] && mark[|mark| - 1] == ']'
    && forall i :: 0 <= i < |mark| ==> !k.digit(mark[i]) && mark[i] != '-'
  }

  /** \d{3}-\d{2}-\d{4} at position p: '-' at offsets 3 and 6, digits elsewhere. */
  predicate SsnShape(k: CharClass, t: string, p: nat) {
    && p + SSN_LENGTH <= |t|
    && forall q :: p <= q < p + SSN_LENGTH ==> SsnChar(k, q - p, t[q])
  }

  predicate SsnChar(k: CharClass, offset: nat, c: char) {
    if offset == 3 || offset == 6 then c == '-' else k.digit(c)
  }

  /** The same between (?<!\w) and (?!\w). */
  predicate SsnAt(k: CharClass, t: string, p: nat) {
    && SsnShape(k, t, p)
    && (p == 0 || !k.word(t[p - 1]))
    && (p + SSN_LENGTH == |t| || !k.word(t[p + SSN_LENGTH]))
  }

  /** finditer from position p on: leftmost match first, then on behind it. */
  function FindSsn(k: CharClass, t: string, p: nat): seq<Span>
    decreases |t| - p
  {
    if p + SSN_LENGTH > |t| then []
    else if SsnAt(k, t, p) then [Span(p, p + SSN_LENGTH)] + FindSsn(k, t, p + SSN_LENGTH)
    else FindSsn(k, t, p + 1)
  }

  function SsnRule(k: CharClass): Rule {
    Rule((t: string) => FindSsn(k, t, 0), (t: string, s: Span) => true, "SSN")
  }

  /** Two SSNs of one text never overlap. */
  lemma {:induction false} SsnsDisjoint(k: CharClass, t: string, i: nat, j: nat)
    requires RegexClasses(k) && SsnAt(k, t, i) && SsnAt(k, t, j) && i < j
    ensures i + SSN_LENGTH <= j
  {
  }

  /** The scan finds every SSN, and nothing else. */
  lemma {:induction false} FindSsnExact(k: CharClass, t: string, p: nat, s: Span)
    requires RegexClasses(k)
    ensures s in FindSsn(k, t, p) <==> p <= s.start && s.end == s.start + SSN_LENGTH && SsnAt(k, t, s.start)
    decreases |t| - p
  {
    if p + SSN_LENGTH > |t| {
    } else if SsnAt(k, t, p) {
      FindSsnExact(k, t, p + SSN_LENGTH, s);
      if p < s.start && SsnAt(k, t, s.start) {
        SsnsDisjoint(k, t, p, s.start);
      }
    } else {
      FindSsnExact(k, t, p + 1, s);
    }
  }

  lemma {:induction false} FindSsnOrdered(k: CharClass, t: string, p: nat)
    requires p <= |t|
    ensures Ordered(FindSsn(k, t, p), p, |t|)
    decreases |t| - p
  {
    if p + SSN_LENGTH > |t| {
    } else if SsnAt(k, t, p) {
      FindSsnOrdered(k, t, p + SSN_LENGTH);
    } else {
      FindSsnOrdered(k, t, p + 1);
      OrderedFromLower(FindSsn(k, t, p + 1), p + 1, p, |t|);
    }
  }

  lemma {:induction false} SsnRuleWellBehaved(k: CharClass)
    ensures WellBehaved(SsnRule(k))
  {
    forall t: string ensures Ordered(SsnRule(k).find(t), 0, |t|) {
      FindSsnOrdered(k, t, 0);
    }
  }

  // ---- the stream, on characters ----

  /** OutputGuardService.redact_stream_chunk: (safe_text_to_send, new_carry_buffer). */
  function RedactStreamChunk(rules: seq<Rule>, chunk: string, carry: string): (string, string)
    requires AllWellBehaved(rules)
  {
    var redacted := RedactText(rules, carry + chunk);
    if |redacted| > CARRY_SIZE
    then (redacted[..|redacted| - CARRY_SIZE], redacted[|redacted| - CARRY_SIZE..])
    else ("", redacted)
  }

  /** What the client has been shown, and what is held back, after a list of tokens. */
  function StreamText(rules: seq<Rule>, tokens: seq<string>, shown: string, carry: string): (string, string)
    requires AllWellBehaved(rules)
  {
    if tokens == [] then (shown, carry)
    else
      var (safe, newCarry) := RedactStreamChunk(rules, tokens[0], carry);
      StreamText(rules, tokens[1..], shown + safe, newCarry)
  }

  /** Everything shown by a stream that ends with a done chunk: the last flush redacts the carry
      together with the text of that chunk. */
  function StreamedText(rules: seq<Rule>, tokens: seq<string>, last: string): string
    requires AllWellBehaved(rules)
  {
    var (shown, carry) := StreamText(rules, tokens, "", "");
    shown + RedactText(rules, carry + last)
  }

  function Concat(tokens: seq<string>): string {
    if tokens == [] then "" else tokens[0] + Concat(tokens[1..])
  }

  // ---- the same stream, on characters that remember where they come from ----

  datatype Source = Made | At(index: nat)

  /** A character and its position in the provider's text; placeholder characters are Made. */
  datatype Item = Item(c: char, src: Source)

  function Text(items: seq<Item>): (r: string)
    ensures |r| == |items| && forall i :: 0 <= i < |r| ==> r[i] == items[i].c
  {
    seq(|items|, i requires 0 <= i < |items| => items[i].c)
  }

  function Marks(mark: string): (r: seq<Item>)
    ensures |r| == |mark| && forall i :: 0 <= i < |r| ==> r[i] == Item(mark[i], Made)
  {
    seq(|mark|, i requires 0 <= i < |mark| => Item(mark[i], Made))
  }

  /** The characters of a token that starts at position n of the provider's text. */
  function Tokens(token: string, n: nat): (r: seq<Item>)
    ensures |r| == |token| && forall i :: 0 <= i < |r| ==> r[i] == Item(token[i], At(n + i))
  {
    seq(|token|, i requires 0 <= i < |token| => Item(token[i], At(n + i)))
  }

  function ApplyItems(rule: Rule, items: seq<Item>): seq<Item>
    requires WellBehaved(rule)
  {
    AcceptedOrdered(rule, Text(items), rule.find(Text(items)), 0, |items|);
    SpliceAll(items, 0, Hits(rule, Text(items)), Marks(Placeholder(rule.kind)))
  }

  function RedactItems(rules: seq<Rule>, items: seq<Item>): seq<Item>
    requires AllWellBehaved(rules)
  {
    if rules == [] then items else RedactItems(rules[1..], ApplyItems(rules[0], items))
  }

  lemma {:induction false} SpliceAllText(items: seq<Item>, from: nat, spans: seq<Span>, mark: string)
    requires Ordered(spans, from, |items|)
    ensures Text(SpliceAll(items, from, spans, Marks(mark))) == SpliceAll(Text(items), from, spans, mark)
    decreases spans
  {
    if spans != [] {
      SpliceAllText(items, spans[0].end, spans[1..], mark);
      var inner := SpliceAll(items, spans[0].end, spans[1..], Marks(mark));
      assert Text(Splice(inner, spans[0], Marks(mark))) == Splice(Text(inner), spans[0], mark);
    }
  }

  /** Following the characters does not change the text. */
  lemma {:induction false} RedactItemsText(rules: seq<Rule>, items: seq<Item>)
    requires AllWellBehaved(rules)
    ensures Text(RedactItems(rules, items)) == RedactText(rules, Text(items))
  {
    if rules != [] {
      var rule := rules[0];
      AcceptedOrdered(rule, Text(items), rule.find(Text(items)), 0, |items|);
      SpliceAllText(items, 0, Hits(rule, Text(items)), Placeholder(rule.kind));
      RedactItemsText(rules[1..], ApplyItems(rule, items));
    }
  }

  /** The positions of the provider's text that occur in a list of items. */
  function Sources(items: seq<Item>): set<nat> {
    set i | 0 <= i < |items| && items[i].src.At? :: items[i].src.index
  }

  /** shown: sent to the client; carry: held back; read: characters received so far;
      taken: positions removed by a rule other than the first. */
  datatype StreamState = StreamState(shown: seq<Item>, carry: seq<Item>, read: nat, taken: set<nat>)

  const START := StreamState([], [], 0, {})

  /** One scan of the carry and a token; the last `keep` characters stay behind. */
  function Scan(rules: seq<Rule>, st: StreamState, token: string, keep: nat): StreamState
    requires AllWellBehaved(rules) && rules != []
  {
    var afterFirst := ApplyItems(rules[0], st.carry + Tokens(token, st.read));
    var out := RedactItems(rules[1..], afterFirst);
    var cut := if |out| > keep then |out| - keep else 0;
    StreamState(st.shown + out[..cut], out[cut..], st.read + |token|,
                st.taken + (Sources(afterFirst) - Sources(out)))
  }

  function StreamItems(rules: seq<Rule>, tokens: seq<string>, st: StreamState): StreamState
    requires AllWellBehaved(rules) && rules != []
  {
    if tokens == [] then st
    else StreamItems(rules, tokens[1..], Scan(rules, st, tokens[0], CARRY_SIZE))
  }

  /** The whole stream, its last flush included. */
  function Streamed(rules: seq<Rule>, tokens: seq<string>, last: string): StreamState
    requires AllWellBehaved(rules) && rules != []
  {
    Scan(rules, StreamItems(rules, tokens, START), last, 0)
  }

  lemma {:induction false} ScanText(rules: seq<Rule>, st: StreamState, token: string, keep: nat)
    requires AllWellBehaved(rules) && rules != []
    ensures var next := Scan(rules, st, token, keep);
            var redacted := RedactText(rules, Text(st.carry) + token);
            var cut := if |redacted| > keep then |redacted| - keep else 0;
            && Text(next.shown) == Text(st.shown) + redacted[..cut]
            && Text(next.carry) == redacted[cut..]
  {
    hide RedactText, ApplyItems, ApplyRule, WellBehaved;
    var combined := st.carry + Tokens(token, st.read);
    RedactItemsText(rules, combined);
    assert Text(combined) == Text(st.carry) + token;
  }

  lemma {:induction false} StreamItemsText(rules: seq<Rule>, tokens: seq<string>, st: StreamState)
    requires AllWellBehaved(rules) && rules != []
    ensures var end := StreamItems(rules, tokens, st);
            (Text(end.shown), Text(end.carry)) == StreamText(rules, tokens, Text(st.shown), Text(st.carry))
  {
    hide Scan, RedactText, WellBehaved;
    if tokens != [] {
      ScanText(rules, st, tokens[0], CARRY_SIZE);
      StreamItemsText(rules, tokens[1..], Scan(rules, st, tokens[0], CARRY_SIZE));
    }
  }

  /** The followed stream shows exactly the text the stream on characters shows. */
  lemma {:induction false} StreamedItemsText(rules: seq<Rule>, tokens: seq<string>, last: string)
    requires AllWellBehaved(rules) && rules != []
    ensures Text(Streamed(rules, tokens, last).shown) == StreamedText(rules, tokens, last)
  {
    hide Scan, StreamItems, StreamText, RedactText, WellBehaved, AllWellBehaved;
    StreamItemsText(rules, tokens, START);
    var before := StreamItems(rules, tokens, START);
    ScanText(rules, before, last, 0);
    assert Text([]) == "";
    var redacted := RedactText(rules, Text(before.carry) + last);
    assert redacted[..|redacted|] == redacted;
  }

  // ---- what every splice keeps ----

  /** items is what is left of the first n characters of s: the characters are those of s, in
      order; neighbours in the list are neighbours in s unless a placeholder ends between them. */
  ghost predicate Tracks(k: CharClass, s: string, n: nat, items: seq<Item>) {
    n <= |s| && Copied(k, s, n, items) && Chained(k, n, items) && Rising(items)
  }

  ghost predicate Copied(k: CharClass, s: string, n: nat, items: seq<Item>)
    requires n <= |s|
  {
    forall i :: 0 <= i < |items| ==> Copy(k, s, n, items[i])
  }

  ghost predicate Copy(k: CharClass, s: string, n: nat, item: Item)
    requires n <= |s|
  {
    match item.src
    case At(x) => x < n && item.c == s[x]
    case Made => !k.digit(item.c) && item.c != '-'
  }

  ghost predicate Chained(k: CharClass, n: nat, items: seq<Item>) {
    && (forall i :: 0 < i < |items| ==> Link(k, items[i - 1], items[i]))
    && (items != [] ==> Follows(k, items[|items| - 1], n))
  }

  ghost predicate Link(k: CharClass, before: Item, item: Item) {
    item.src.At? ==> Follows(k, before, item.src.index)
  }

  ghost predicate Follows(k: CharClass, before: Item, index: nat) {
    if before.src.At? then before.src.index + 1 == index else !k.word(before.c)
  }

  ghost predicate Rising(items: seq<Item>) {
    forall i, j :: 0 <= i < j < |items| ==> Precedes(items[i], items[j])
  }

  ghost predicate Precedes(a: Item, b: Item) {
    a.src.At? && b.src.At? ==> a.src.index < b.src.index
  }

  /** Where position i of a spliced list comes from; the mark's own positions come from none. */
  function Origin(span: Span, markLength: nat, i: nat): nat
    requires i < span.start || span.start + markLength <= i
    requires span.start <= span.end
  {
    if i < span.start then i else i - span.start - markLength + span.end
  }

  lemma {:induction false} SpliceAt<T>(items: seq<T>, span: Span, mark: seq<T>, i: nat)
    requires span.start < span.end <= |items|
    requires i < |Splice(items, span, mark)|
    ensures Splice(items, span, mark)[i]
            == if span.start <= i < span.start + |mark| then mark[i - span.start]
               else items[Origin(span, |mark|, i)]
  {
  }

  lemma {:induction false} SpliceRising(items: seq<Item>, span: Span, mark: string)
    requires Rising(items) && span.start < span.end <= |items|
    ensures Rising(Splice(items, span, Marks(mark)))
  {
    var r := Splice(items, span, Marks(mark));
    forall i, j | 0 <= i < j < |r| ensures Precedes(r[i], r[j]) {
      SpliceAt(items, span, Marks(mark), i);
      SpliceAt(items, span, Marks(mark), j);
    }
  }

  lemma {:induction false} SpliceCopied(k: CharClass, s: string, n: nat, items: seq<Item>, span: Span, mark: string)
    requires n <= |s| && Quiet(k, mark) && Copied(k, s, n, items) && span.start < span.end <= |items|
    ensures Copied(k, s, n, Splice(items, span, Marks(mark)))
  {
    var r := Splice(items, span, Marks(mark));
    forall i | 0 <= i < |r| ensures Copy(k, s, n, r[i]) {
      SpliceAt(items, span, Marks(mark), i);
    }
  }

  lemma {:induction false} SpliceChained(k: CharClass, n: nat, items: seq<Item>, span: Span, mark: string)
    requires RegexClasses(k) && Quiet(k, mark) && Chained(k, n, items) && span.start < span.end <= |items|
    ensures Chained(k, n, Splice(items, span, Marks(mark)))
  {
    var r := Splice(items, span, Marks(mark));
    forall i | 0 < i < |r| ensures Link(k, r[i - 1], r[i]) {
      SpliceAt(items, span, Marks(mark), i - 1);
      SpliceAt(items, span, Marks(mark), i);
    }
    SpliceAt(items, span, Marks(mark), |r| - 1);
  }

  lemma {:induction false} SourceOf(items: seq<Item>, i: nat)
    requires i < |items| && items[i].src.At?
    ensures items[i].src.index in Sources(items)
  {
  }

  lemma {:induction false} RisingUnique(items: seq<Item>, i: nat, j: nat)
    requires Rising(items) && i < |items| && j < |items|
    requires items[i].src.At? && items[i].src == items[j].src
    ensures i == j
  {
  }

  /** In a rising list a position outside a stretch is not inside it too. */
  lemma {:induction false} OutsideCut(items: seq<Item>, span: Span, p: nat)
    requires Rising(items) && span.start < span.end <= |items| && p < |items| && !(span.start <= p < span.end)
    ensures items[p].src.At? ==> items[p].src.index !in Sources(items[span.start..span.end])
  {
    var cut := items[span.start..span.end];
    forall q | 0 <= q < |cut| ensures items[p].src.At? ==> cut[q].src != items[p].src {
      assert Precedes(items[if p < span.start + q then p else span.start + q],
                      items[if p < span.start + q then span.start + q else p]);
    }
  }

  lemma {:induction false} InsideCut(items: seq<Item>, span: Span, p: nat)
    requires span.start < span.end <= |items| && p < |items| && items[p].src.At?
    ensures span.start <= p < span.end ==> items[p].src.index in Sources(items[span.start..span.end])
  {
    if span.start <= p < span.end {
      SourceOf(items[span.start..span.end], p - span.start);
    }
  }

  /** A splice removes exactly the positions under its span. */
  lemma {:induction false} SpliceSources(items: seq<Item>, span: Span, mark: string)
    requires Rising(items) && span.start < span.end <= |items|
    ensures Sources(Splice(items, span, Marks(mark))) == Sources(items) - Sources(items[span.start..span.end])
  {
    var r := Splice(items, span, Marks(mark));
    var cut := items[span.start..span.end];
    forall x ensures x in Sources(r) <==> x in Sources(items) && x !in Sources(cut) {
      if x in Sources(r) {
        var i :| 0 <= i < |r| && r[i].src == At(x);
        SpliceAt(items, span, Marks(mark), i);
        SourceOf(items, Origin(span, |mark|, i));
        OutsideCut(items, span, Origin(span, |mark|, i));
      }
      if x in Sources(items) && x !in Sources(cut) {
        var q :| 0 <= q < |items| && items[q].src == At(x);
        InsideCut(items, span, q);
        var i := if q < span.start then q else q - span.end + span.start + |mark|;
        SpliceAt(items, span, Marks(mark), i);
        SourceOf(r, i);
      }
    }
  }

  /** The positions under a list of spans. */
  function Covered(items: seq<Item>, spans: seq<Span>, from: nat): set<nat>
    requires Ordered(spans, from, |items|)
    decreases spans
  {
    if spans == [] then {}
    else Sources(items[spans[0].start..spans[0].end]) + Covered(items, spans[1..], spans[0].end)
  }

  lemma {:induction false} SpliceAllTracks(k: CharClass, s: string, n: nat, items: seq<Item>, from: nat,
                                           spans: seq<Span>, mark: string)
    requires RegexClasses(k) && Quiet(k, mark) && Tracks(k, s, n, items) && Ordered(spans, from, |items|)
    ensures Tracks(k, s, n, SpliceAll(items, from, spans, Marks(mark)))
    ensures Sources(SpliceAll(items, from, spans, Marks(mark))) == Sources(items) - Covered(items, spans, from)
    decreases spans
  {
    if spans != [] {
      var span := spans[0];
      SpliceAllTracks(k, s, n, items, span.end, spans[1..], mark);
      var inner := SpliceAll(items, span.end, spans[1..], Marks(mark));
      assert inner[span.start..span.end] == inner[..span.end][span.start..] == items[span.start..span.end];
      SpliceCopied(k, s, n, inner, span, mark);
      SpliceChained(k, n, inner, span, mark);
      SpliceRising(inner, span, mark);
      SpliceSources(inner, span, mark);
    }
  }

  lemma {:induction false} CoveredBy(items: seq<Item>, spans: seq<Span>, from: nat, x: nat) returns (span: Span, q: nat)
    requires Ordered(spans, from, |items|) && x in Covered(items, spans, from)
    ensures span in spans && span.start <= q < span.end <= |items| && items[q].src == At(x)
    decreases spans
  {
    var first := items[spans[0].start..spans[0].end];
    if x in Sources(first) {
      var i :| 0 <= i < |first| && first[i].src == At(x);
      span, q := spans[0], spans[0].start + i;
    } else {
      span, q := CoveredBy(items, spans[1..], spans[0].end, x);
    }
  }

  lemma {:induction false} Covers(items: seq<Item>, spans: seq<Span>, from: nat, span: Span, q: nat)
    requires Ordered(spans, from, |items|) && span in spans && span.start <= q < span.end
    ensures q < |items| && (items[q].src.At? ==> items[q].src.index in Covered(items, spans, from))
    decreases spans
  {
    if span == spans[0] {
      var first := items[span.start..span.end];
      if items[q].src.At? {
        SourceOf(first, q - span.start);
      }
    } else {
      Covers(items, spans[1..], spans[0].end, span, q);
    }
  }

  // ---- a stretch of the source held in one piece ----

  /** Positions j .. j + len - 1 of the source sit in items from p on. */
  ghost predicate Holds(items: seq<Item>, p: nat, j: nat, len: nat) {
    && p + len <= |items|
    && forall q :: p <= q < p + len ==> items[q].src == At(j + q - p)
  }

  /** Positions j .. n - 1 of the source are the end of items. */
  ghost predicate EndsWith(items: seq<Item>, j: nat, n: nat) {
    && j <= n <= j + |items|
    && Holds(items, |items| - (n - j), j, n - j)
  }

  ghost predicate HasAll(items: seq<Item>, j: nat, n: nat) {
    forall x: nat :: j <= x < n ==> x in Sources(items)
  }

  lemma {:induction false} SpliceKeepsEnd(items: seq<Item>, span: Span, mark: string, j: nat, n: nat)
    requires Rising(items) && span.start < span.end <= |items| && EndsWith(items, j, n)
    requires HasAll(Splice(items, span, Marks(mark)), j, n)
    ensures EndsWith(Splice(items, span, Marks(mark)), j, n)
  {
    var r := Splice(items, span, Marks(mark));
    var p := |items| - (n - j);
    assert span.end <= p || j == n by {
      if p < span.end && j < n {
        var q := if p < span.start then span.start else p;
        SpliceSources(items, span, mark);
        SourceOf(items[span.start..span.end], q - span.start);
      }
    }
    var p' := |r| - (n - j);
    forall q | p' <= q < |r| ensures r[q].src == At(j + q - p') {
      SpliceAt(items, span, Marks(mark), q);
    }
  }

  lemma {:induction false} SpliceAllKeepsEnd(k: CharClass, s: string, items: seq<Item>, from: nat, spans: seq<Span>,
                                             mark: string, j: nat, n: nat)
    requires RegexClasses(k) && Quiet(k, mark) && Tracks(k, s, n, items) && Ordered(spans, from, |items|)
    requires EndsWith(items, j, n)
    requires HasAll(SpliceAll(items, from, spans, Marks(mark)), j, n)
    ensures EndsWith(SpliceAll(items, from, spans, Marks(mark)), j, n)
    decreases spans
  {
    if spans != [] {
      var inner := SpliceAll(items, spans[0].end, spans[1..], Marks(mark));
      SpliceAllTracks(k, s, n, items, spans[0].end, spans[1..], mark);
      SpliceSources(inner, spans[0], mark);
      var outer := SpliceAll(items, from, spans, Marks(mark));
      assert outer == Splice(inner, spans[0], Marks(mark));
      assert forall x :: x in Sources(outer) ==> x in Sources(inner);
      SpliceAllKeepsEnd(k, s, items, spans[0].end, spans[1..], mark, j, n);
      SpliceKeepsEnd(inner, spans[0], mark, j, n);
    }
  }

  // ---- one rule, and all the rules ----

  ghost predicate QuietRules(k: CharClass, rules: seq<Rule>) {
    rules == [] || (Quiet(k, Placeholder(rules[0].kind)) && QuietRules(k, rules[1..]))
  }

  lemma {:induction false} ApplyItemsTracks(k: CharClass, s: string, n: nat, rule: Rule, items: seq<Item>)
    requires RegexClasses(k) && WellBehaved(rule) && Quiet(k, Placeholder(rule.kind)) && Tracks(k, s, n, items)
    ensures Tracks(k, s, n, ApplyItems(rule, items))
    ensures Ordered(Hits(rule, Text(items)), 0, |items|)
    ensures Sources(ApplyItems(rule, items)) == Sources(items) - Covered(items, Hits(rule, Text(items)), 0)
  {
    AcceptedOrdered(rule, Text(items), rule.find(Text(items)), 0, |items|);
    SpliceAllTracks(k, s, n, items, 0, Hits(rule, Text(items)), Placeholder(rule.kind));
  }

  lemma {:induction false} ApplyItemsKeepsEnd(k: CharClass, s: string, n: nat, rule: Rule, items: seq<Item>, j: nat)
    requires RegexClasses(k) && WellBehaved(rule) && Quiet(k, Placeholder(rule.kind)) && Tracks(k, s, n, items)
    requires EndsWith(items, j, n) && HasAll(ApplyItems(rule, items), j, n)
    ensures EndsWith(ApplyItems(rule, items), j, n)
  {
    AcceptedOrdered(rule, Text(items), rule.find(Text(items)), 0, |items|);
    SpliceAllKeepsEnd(k, s, items, 0, Hits(rule, Text(items)), Placeholder(rule.kind), j, n);
  }

  lemma {:induction false} RedactItemsTracks(k: CharClass, s: string, n: nat, rules: seq<Rule>, items: seq<Item>)
    requires RegexClasses(k) && AllWellBehaved(rules) && QuietRules(k, rules) && Tracks(k, s, n, items)
    ensures Tracks(k, s, n, RedactItems(rules, items))
    ensures Sources(RedactItems(rules, items)) <= Sources(items)
  {
    if rules != [] {
      ApplyItemsTracks(k, s, n, rules[0], items);
      RedactItemsTracks(k, s, n, rules[1..], ApplyItems(rules[0], items));
    }
  }

  lemma {:induction false} RedactItemsKeepsEnd(k: CharClass, s: string, n: nat, rules: seq<Rule>, items: seq<Item>,
                                               j: nat)
    requires RegexClasses(k) && AllWellBehaved(rules) && QuietRules(k, rules) && Tracks(k, s, n, items)
    requires EndsWith(items, j, n) && HasAll(RedactItems(rules, items), j, n)
    ensures EndsWith(RedactItems(rules, items), j, n)
  {
    if rules != [] {
      var after := ApplyItems(rules[0], items);
      ApplyItemsTracks(k, s, n, rules[0], items);
      RedactItemsTracks(k, s, n, rules[1..], after);
      assert HasAll(after, j, n);
      ApplyItemsKeepsEnd(k, s, n, rules[0], items, j);
      RedactItemsKeepsEnd(k, s, n, rules[1..], after, j);
    }
  }

  // ---- the SSN rule on followed text ----

  /** No character of the eleven from j on occurs in items. */
  ghost predicate Absent(items: seq<Item>, j: nat) {
    forall x: nat :: x in Sources(items) ==> !(j <= x < j + SSN_LENGTH)
  }

  lemma {:induction false} HeldText(k: CharClass, s: string, n: nat, items: seq<Item>, p: nat, j: nat, len: nat, t: nat)
    requires Tracks(k, s, n, items) && Holds(items, p, j, len) && t < len
    ensures j + t < n && Text(items)[p + t] == s[j + t]
  {
    assert items[p + t].src == At(j + t);
    assert Copy(k, s, n, items[p + t]);
  }

  lemma {:induction false} HeldWindow(k: CharClass, s: string, n: nat, items: seq<Item>, p: nat, j: nat)
    requires Tracks(k, s, n, items) && Holds(items, p, j, SSN_LENGTH)
    ensures j + SSN_LENGTH <= n
    ensures SsnShape(k, Text(items), p) <==> SsnShape(k, s, j)
  {
    HeldText(k, s, n, items, p, j, SSN_LENGTH, 10);
    forall q | p <= q < p + SSN_LENGTH ensures Text(items)[q] == s[j + q - p] {
      HeldText(k, s, n, items, p, j, SSN_LENGTH, q - p);
    }
    forall x | j <= x < j + SSN_LENGTH ensures Text(items)[p + x - j] == s[x] {
      HeldText(k, s, n, items, p, j, SSN_LENGTH, x - j);
    }
  }

  /** The character before a held stretch cannot be a word character that s does not have there. */
  lemma {:induction false} BeforeHeld(k: CharClass, s: string, n: nat, items: seq<Item>, p: nat, j: nat, len: nat)
    requires RegexClasses(k) && Tracks(k, s, n, items) && Holds(items, p, j, len) && 0 < len && 0 < p
    requires j <= |s|
    ensures !k.word(Text(items)[p - 1]) || (0 < j && Text(items)[p - 1] == s[j - 1])
  {
    assert items[p].src == At(j);
    assert Link(k, items[p - 1], items[p]) && Copy(k, s, n, items[p - 1]);
  }

  /** A complete SSN of the source held in one piece up to the end is matched. */
  lemma {:induction false} CompleteSsnMatched(k: CharClass, s: string, n: nat, items: seq<Item>, j: nat)
    requires RegexClasses(k) && Tracks(k, s, n, items) && SsnAt(k, s, j)
    requires j + SSN_LENGTH <= n && EndsWith(items, j, n)
    ensures SsnAt(k, Text(items), |items| - (n - j))
  {
    var p := |items| - (n - j);
    assert Holds(items, p, j, SSN_LENGTH);
    HeldWindow(k, s, n, items, p, j);
    if p > 0 {
      BeforeHeld(k, s, n, items, p, j, n - j);
    }
    if p + SSN_LENGTH < |items| {
      HeldText(k, s, n, items, p, j, n - j, SSN_LENGTH);
    }
  }

  /** Inside the shape a digit follows a non-word character at two places only. */
  lemma {:induction false} DigitBehindNonWord(k: CharClass, t: string, i: nat, p: nat)
    requires RegexClasses(k) && SsnShape(k, t, i) && i < p < i + SSN_LENGTH
    requires k.digit(t[p]) && !k.word(t[p - 1])
    ensures p == i + 4 || p == i + 7
  {
  }

  /** A shape in t cannot reach into a stretch at the end of t that begins like the shape at j
      in s, if that stretch is shorter than a shape and a non-word character stands before it. */
  lemma {:induction false} ShapeStopsBefore(k: CharClass, t: string, s: string, i: nat, p: nat, j: nat)
    requires RegexClasses(k) && SsnShape(k, t, i) && SsnShape(k, s, j)
    requires 0 < p < |t| < p + SSN_LENGTH && !k.word(t[p - 1])
    requires forall q :: p <= q < |t| ==> t[q] == s[j + q - p]
    ensures i + SSN_LENGTH <= p
  {
    assert SsnChar(k, 6, t[i + 6]) && SsnChar(k, 10, t[i + 10]);
    assert SsnChar(k, 2, s[j + 2]) && SsnChar(k, 3, s[j + 3]);
    if p < i + SSN_LENGTH {
      DigitBehindNonWord(k, t, i, p);
    }
  }

  /** An unfinished SSN at the end is not touched by the rule. */
  lemma {:induction false} UnfinishedSsnUntouched(k: CharClass, s: string, n: nat, items: seq<Item>, j: nat, i: nat)
    requires RegexClasses(k) && Tracks(k, s, n, items) && SsnAt(k, s, j)
    requires j < n < j + SSN_LENGTH && EndsWith(items, j, n)
    requires SsnShape(k, Text(items), i)
    ensures i + SSN_LENGTH <= |items| - (n - j)
  {
    var p := |items| - (n - j);
    var t := Text(items);
    BeforeHeld(k, s, n, items, p, j, n - j);
    forall q | p <= q < |t| ensures t[q] == s[j + q - p] {
      HeldText(k, s, n, items, p, j, n - j, q - p);
    }
    ShapeStopsBefore(k, t, s, i, p, j);
  }

  /** A character that is a digit or '-' comes from the source. */
  lemma {:induction false} DigitsComeFromSource(k: CharClass, s: string, n: nat, items: seq<Item>, i: nat)
    requires Tracks(k, s, n, items) && SsnShape(k, Text(items), i)
    ensures forall q :: i <= q < i + SSN_LENGTH ==> items[q].src.At?
  {
    forall q | i <= q < i + SSN_LENGTH ensures items[q].src.At? {
      assert Copy(k, s, n, items[q]);
    }
  }

  lemma {:induction false} RunOfSources(k: CharClass, n: nat, items: seq<Item>, i: nat, len: nat)
    requires Chained(k, n, items) && 0 < len && i + len <= |items|
    requires forall q :: i <= q < i + len ==> items[q].src.At?
    ensures Holds(items, i, items[i].src.index, len)
  {
    if len > 1 {
      RunOfSources(k, n, items, i, len - 1);
      var q := i + len - 1;
      assert Link(k, items[q - 1], items[q]);
    }
  }

  /** The rule only matches text that stands in the source in one piece, in the shape of an SSN. */
  lemma {:induction false} MatchIsSourceShape(k: CharClass, s: string, n: nat, items: seq<Item>, i: nat)
    requires RegexClasses(k) && Tracks(k, s, n, items) && SsnShape(k, Text(items), i)
    ensures items[i].src.At? && Holds(items, i, items[i].src.index, SSN_LENGTH)
    ensures SsnShape(k, s, items[i].src.index)
  {
    DigitsComeFromSource(k, s, n, items, i);
    RunOfSources(k, n, items, i, SSN_LENGTH);
    HeldWindow(k, s, n, items, i, items[i].src.index);
  }

  // ---- one scan ----

  /** The eleven characters from j on are gone once all have arrived; before that none is shown
      and those that arrived are the end of the carry. */
  ghost predicate Contained(st: StreamState, j: nat) {
    && Absent(st.shown, j)
    && (if j + SSN_LENGTH <= st.read then Absent(st.carry, j)
        else j < st.read ==> EndsWith(st.carry, j, st.read))
  }

  ghost predicate Untaken(st: StreamState, j: nat) {
    forall x: nat :: x in st.taken ==> !(j <= x < j + SSN_LENGTH)
  }

  /** Position x lies under text of SSN shape. */
  ghost predicate InShape(k: CharClass, s: string, x: nat) {
    exists j: nat :: SsnShape(k, s, j) && j <= x < j + SSN_LENGTH
  }

  ghost predicate Accounted(k: CharClass, s: string, st: StreamState, x: nat) {
    x in Sources(st.shown) || x in Sources(st.carry) || x in st.taken || InShape(k, s, x)
  }

  /** The rules: first SSN, then any others whose placeholders hold no digit and no '-'. */
  ghost predicate SsnFirst(k: CharClass, rules: seq<Rule>) {
    && RegexClasses(k) && rules != [] && rules[0] == SsnRule(k)
    && AllWellBehaved(rules) && QuietRules(k, rules)
  }

  /** Between scans, for a source text s whose first st.read characters have arrived. */
  ghost predicate StreamInv(k: CharClass, s: string, st: StreamState) {
    && Tracks(k, s, st.read, st.carry)
    && ShownInOrder(k, s, st)
    && (forall j: nat :: SsnAt(k, s, j) && Untaken(st, j) ==> Contained(st, j))
    && (forall x: nat :: x < st.read ==> Accounted(k, s, st, x))
  }

  /** The shown characters are characters of s, in order, and before those held back. */
  ghost predicate ShownInOrder(k: CharClass, s: string, st: StreamState)
    requires st.read <= |s|
  {
    && Copied(k, s, st.read, st.shown) && Rising(st.shown)
    && Before(st.shown, st.carry)
  }

  ghost predicate Before(a: seq<Item>, b: seq<Item>) {
    forall x, y :: x in Sources(a) && y in Sources(b) ==> x < y
  }

  lemma {:induction false} CombinedTracks(k: CharClass, s: string, n: nat, carry: seq<Item>, token: string)
    requires RegexClasses(k) && Tracks(k, s, n, carry) && n + |token| <= |s| && s[n..n + |token|] == token
    ensures Tracks(k, s, n + |token|, carry + Tokens(token, n))
  {
    var items := carry + Tokens(token, n);
    forall i | 0 <= i < |items| ensures Copy(k, s, n + |token|, items[i]) {
      if i < |carry| {
        assert Copy(k, s, n, carry[i]);
      } else {
        assert s[n..n + |token|][i - |carry|] == token[i - |carry|];
      }
    }
    forall i | 0 < i < |items| ensures Link(k, items[i - 1], items[i]) {
      if i < |carry| {
        assert Link(k, carry[i - 1], carry[i]);
      }
    }
    forall i, j | 0 <= i < j < |items| ensures Precedes(items[i], items[j]) {
      if j < |carry| {
        assert Precedes(carry[i], carry[j]);
      } else if i < |carry| {
        assert Copy(k, s, n, carry[i]);
      }
    }
  }

  lemma {:induction false} CombinedEndsWith(items: seq<Item>, n: nat, token: string, j: nat)
    requires j < n ==> EndsWith(items, j, n)
    requires j < n + |token|
    ensures EndsWith(items + Tokens(token, n), j, n + |token|)
  {
  }

  lemma {:induction false} SourcesOfConcat(a: seq<Item>, b: seq<Item>)
    ensures Sources(a + b) == Sources(a) + Sources(b)
  {
    forall x ensures x in Sources(a + b) <==> x in Sources(a) || x in Sources(b) {
      if x in Sources(a) {
        var i :| 0 <= i < |a| && a[i].src == At(x);
        SourceOf(a + b, i);
      }
      if x in Sources(b) {
        var i :| 0 <= i < |b| && b[i].src == At(x);
        SourceOf(a + b, |a| + i);
      }
    }
  }

  /** A match of the SSN rule covers the eleven items it stands on. */
  lemma {:induction false} MatchCovers(k: CharClass, items: seq<Item>, p: nat, q: nat)
    requires RegexClasses(k) && SsnAt(k, Text(items), p) && p <= q < p + SSN_LENGTH && items[q].src.At?
    requires Ordered(Hits(SsnRule(k), Text(items)), 0, |items|)
    ensures items[q].src.index in Covered(items, Hits(SsnRule(k), Text(items)), 0)
  {
    FindSsnExact(k, Text(items), 0, Span(p, p + SSN_LENGTH));
    Covers(items, Hits(SsnRule(k), Text(items)), 0, Span(p, p + SSN_LENGTH), q);
  }

  lemma {:induction false} FinishedIsCovered(k: CharClass, s: string, n: nat, items: seq<Item>, j: nat, x: nat)
    requires RegexClasses(k) && Tracks(k, s, n, items) && SsnAt(k, s, j)
    requires EndsWith(items, j, n) && j + SSN_LENGTH <= n && j <= x < j + SSN_LENGTH
    requires Ordered(Hits(SsnRule(k), Text(items)), 0, |items|)
    ensures x in Covered(items, Hits(SsnRule(k), Text(items)), 0)
  {
    CompleteSsnMatched(k, s, n, items, j);
    assert items[|items| - (n - x)].src == At(x);
    MatchCovers(k, items, |items| - (n - j), |items| - (n - x));
  }

  /** The SSN rule removes every character of a finished SSN. */
  lemma {:induction false} FinishedSsnGoes(k: CharClass, s: string, n: nat, items: seq<Item>, j: nat)
    requires RegexClasses(k) && WellBehaved(SsnRule(k)) && Tracks(k, s, n, items) && SsnAt(k, s, j)
    requires EndsWith(items, j, n) && j + SSN_LENGTH <= n
    ensures Absent(ApplyItems(SsnRule(k), items), j)
  {
    ApplyItemsTracks(k, s, n, SsnRule(k), items);
    forall x: nat | x in Sources(ApplyItems(SsnRule(k), items)) ensures !(j <= x < j + SSN_LENGTH) {
      if j <= x < j + SSN_LENGTH {
        FinishedIsCovered(k, s, n, items, j, x);
      }
    }
  }

  lemma {:induction false} UnfinishedNotCovered(k: CharClass, s: string, n: nat, items: seq<Item>, j: nat, x: nat)
    requires RegexClasses(k) && WellBehaved(SsnRule(k)) && Tracks(k, s, n, items) && SsnAt(k, s, j)
    requires EndsWith(items, j, n) && j <= x < n < j + SSN_LENGTH
    requires Ordered(Hits(SsnRule(k), Text(items)), 0, |items|)
    ensures x !in Covered(items, Hits(SsnRule(k), Text(items)), 0)
  {
    var spans := Hits(SsnRule(k), Text(items));
    if x in Covered(items, spans, 0) {
      var span, q := CoveredBy(items, spans, 0, x);
      RisingUnique(items, q, |items| - (n - x));
      FindSsnExact(k, Text(items), 0, span);
      UnfinishedSsnUntouched(k, s, n, items, j, span.start);
    }
  }

  lemma {:induction false} UnfinishedRemains(k: CharClass, s: string, n: nat, items: seq<Item>, j: nat, x: nat)
    requires RegexClasses(k) && WellBehaved(SsnRule(k)) && Tracks(k, s, n, items) && SsnAt(k, s, j)
    requires EndsWith(items, j, n) && j <= x < n < j + SSN_LENGTH
    ensures x in Sources(ApplyItems(SsnRule(k), items))
  {
    hide Tracks, SsnAt, WellBehaved;
    ApplyItemsTracks(k, s, n, SsnRule(k), items);
    SourceOf(items, |items| - (n - x));
    UnfinishedNotCovered(k, s, n, items, j, x);
  }

  /** The SSN rule leaves an unfinished SSN whole at the end of the text. */
  lemma {:induction false} UnfinishedSsnStays(k: CharClass, s: string, n: nat, items: seq<Item>, j: nat)
    requires RegexClasses(k) && WellBehaved(SsnRule(k)) && Tracks(k, s, n, items) && SsnAt(k, s, j)
    requires EndsWith(items, j, n) && n < j + SSN_LENGTH
    ensures EndsWith(ApplyItems(SsnRule(k), items), j, n)
  {
    assert HasAll(ApplyItems(SsnRule(k), items), j, n) by {
      forall x: nat | j <= x < n ensures x in Sources(ApplyItems(SsnRule(k), items)) {
        UnfinishedRemains(k, s, n, items, j, x);
      }
    }
    ApplyItemsKeepsEnd(k, s, n, SsnRule(k), items, j);
  }

  /** Whatever the SSN rule removes had the shape of an SSN in the source. */
  lemma {:induction false} SsnRuleRemovesShapes(k: CharClass, s: string, n: nat, items: seq<Item>, x: nat)
    requires RegexClasses(k) && WellBehaved(SsnRule(k)) && Tracks(k, s, n, items)
    requires x in Sources(items) && x !in Sources(ApplyItems(SsnRule(k), items))
    ensures InShape(k, s, x)
  {
    var rule := SsnRule(k);
    ApplyItemsTracks(k, s, n, rule, items);
    var span, q := CoveredBy(items, Hits(rule, Text(items)), 0, x);
    FindSsnExact(k, Text(items), 0, span);
    MatchIsSourceShape(k, s, n, items, span.start);
  }

  // ---- the invariant over a whole stream ----

  lemma {:induction false} SubItems(k: CharClass, s: string, n: nat, items: seq<Item>, cut: nat)
    requires Tracks(k, s, n, items) && cut <= |items|
    ensures Tracks(k, s, n, items[cut..])
  {
    var r := items[cut..];
    forall i | 0 <= i < |r| ensures Copy(k, s, n, r[i]) {
      assert Copy(k, s, n, items[cut + i]);
    }
    forall i | 0 < i < |r| ensures Link(k, r[i - 1], r[i]) {
      assert Link(k, items[cut + i - 1], items[cut + i]);
    }
    forall i, j | 0 <= i < j < |r| ensures Precedes(r[i], r[j]) {
      assert Precedes(items[cut + i], items[cut + j]);
    }
  }

  lemma {:induction false} SourcesBelow(k: CharClass, s: string, n: nat, items: seq<Item>, x: nat)
    requires Tracks(k, s, n, items) && x in Sources(items)
    ensures x < n
  {
    var i :| 0 <= i < |items| && items[i].src == At(x);
    assert Copy(k, s, n, items[i]);
  }

  /** What the rules leave of a window: nothing if it is complete, all of it at the end if not. */
  ghost predicate Treated(items: seq<Item>, n: nat, j: nat) {
    if j + SSN_LENGTH <= n || n <= j then Absent(items, j) else EndsWith(items, j, n)
  }

  lemma {:induction false} FirstRuleTreats(k: CharClass, s: string, st: StreamState, token: string, j: nat)
    requires RegexClasses(k) && WellBehaved(SsnRule(k)) && SsnAt(k, s, j) && Contained(st, j)
    requires Tracks(k, s, st.read, st.carry)
    requires st.read + |token| <= |s| && s[st.read..st.read + |token|] == token
    ensures Treated(ApplyItems(SsnRule(k), st.carry + Tokens(token, st.read)), st.read + |token|, j)
  {
    hide Tracks, SsnAt, WellBehaved, EndsWith;
    var n := st.read + |token|;
    var combined := st.carry + Tokens(token, st.read);
    CombinedTracks(k, s, st.read, st.carry, token);
    if j >= n || j + SSN_LENGTH <= st.read {
      ApplyItemsTracks(k, s, n, SsnRule(k), combined);
      forall x: nat | x in Sources(combined) ensures !(j <= x < j + SSN_LENGTH) {
        SourcesBelow(k, s, n, combined, x);
        SourcesOfConcat(st.carry, Tokens(token, st.read));
      }
    } else {
      CombinedEndsWith(st.carry, st.read, token, j);
      if j + SSN_LENGTH <= n {
        FinishedSsnGoes(k, s, n, combined, j);
      } else {
        UnfinishedSsnStays(k, s, n, combined, j);
      }
    }
  }

  /** Other rules do not disturb that as long as they take none of the window. */
  lemma {:induction false} OtherRulesTreat(k: CharClass, s: string, n: nat, rules: seq<Rule>, items: seq<Item>, j: nat)
    requires RegexClasses(k) && AllWellBehaved(rules) && QuietRules(k, rules) && Tracks(k, s, n, items)
    requires Treated(items, n, j)
    requires forall x: nat :: x in Sources(items) - Sources(RedactItems(rules, items)) ==> !(j <= x < j + SSN_LENGTH)
    ensures Treated(RedactItems(rules, items), n, j)
  {
    hide RegexClasses, Tracks, QuietRules, AllWellBehaved;
    RedactItemsTracks(k, s, n, rules, items);
    if j < n < j + SSN_LENGTH {
      assert HasAll(RedactItems(rules, items), j, n) by {
        forall x: nat | j <= x < n ensures x in Sources(RedactItems(rules, items)) {
          SourceOf(items, |items| - (n - x));
          assert x in Sources(items) - Sources(RedactItems(rules, items)) || x in Sources(RedactItems(rules, items));
        }
      }
      RedactItemsKeepsEnd(k, s, n, rules, items, j);
    }
  }

  /** Cutting off all but the last `keep` characters shows nothing of an unfinished window. */
  lemma {:induction false} CutContains(st: StreamState, out: seq<Item>, cut: nat, n: nat, taken: set<nat>, j: nat)
    requires cut <= |out| && Absent(st.shown, j) && Treated(out, n, j) && Rising(out)
    requires |out| <= cut + CARRY_SIZE
    requires cut + CARRY_SIZE == |out| || cut == 0 || j + SSN_LENGTH <= n
    ensures Contained(StreamState(st.shown + out[..cut], out[cut..], n, taken), j)
  {
    SourcesOfConcat(st.shown, out[..cut]);
    SourcesOfConcat(out[..cut], out[cut..]);
    assert out == out[..cut] + out[cut..];
    if j < n < j + SSN_LENGTH {
      forall x: nat | x in Sources(out[..cut]) ensures !(j <= x < j + SSN_LENGTH) {
        var i :| 0 <= i < cut && out[i].src == At(x);
        assert Precedes(out[i], out[|out| - (n - j)]);
      }
    }
  }

  lemma {:induction false} RulesTreat(k: CharClass, s: string, rules: seq<Rule>, st: StreamState, token: string, j: nat)
    requires SsnFirst(k, rules) && SsnAt(k, s, j) && Contained(st, j)
    requires Tracks(k, s, st.read, st.carry)
    requires st.read + |token| <= |s| && s[st.read..st.read + |token|] == token
    ensures var n := st.read + |token|;
            var after := ApplyItems(rules[0], st.carry + Tokens(token, st.read));
            var out := RedactItems(rules[1..], after);
            && Tracks(k, s, n, after) && Tracks(k, s, n, out) && Rising(out)
            && ((forall x: nat :: x in Sources(after) - Sources(out) ==> !(j <= x < j + SSN_LENGTH))
                ==> Treated(out, n, j))
  {
    hide SsnAt, Contained, Treated, EndsWith, WellBehaved, Copied, Chained;
    var n := st.read + |token|;
    var combined := st.carry + Tokens(token, st.read);
    var after := ApplyItems(rules[0], combined);
    var out := RedactItems(rules[1..], after);
    CombinedTracks(k, s, st.read, st.carry, token);
    ApplyItemsTracks(k, s, n, rules[0], combined);
    RedactItemsTracks(k, s, n, rules[1..], after);
    if forall x: nat :: x in Sources(after) - Sources(out) ==> !(j <= x < j + SSN_LENGTH) {
      FirstRuleTreats(k, s, st, token, j);
      OtherRulesTreat(k, s, n, rules[1..], after, j);
    }
  }

  lemma {:induction false} ContainedNotShown(st: StreamState, j: nat)
    requires Contained(st, j)
    ensures Absent(st.shown, j)
  {
  }

  /** One window after a scan. */
  lemma {:induction false} ScanContains(k: CharClass, s: string, rules: seq<Rule>, st: StreamState, token: string,
                                        keep: nat, j: nat)
    requires SsnFirst(k, rules) && SsnAt(k, s, j) && Contained(st, j)
    requires Tracks(k, s, st.read, st.carry)
    requires st.read + |token| <= |s| && s[st.read..st.read + |token|] == token
    requires Untaken(Scan(rules, st, token, keep), j)
    requires keep == CARRY_SIZE || (keep == 0 && st.read + |token| == |s|)
    ensures Contained(Scan(rules, st, token, keep), j)
  {
    hide RedactItems, ApplyItems, Treated, Contained, Absent, Hits, RegexClasses, QuietRules, WellBehaved, Tracks,
         Rising;
    ContainedNotShown(st, j);
    RulesTreat(k, s, rules, st, token, j);
    var next := Scan(rules, st, token, keep);
    var out := RedactItems(rules[1..], ApplyItems(rules[0], st.carry + Tokens(token, st.read)));
    var cut := if |out| > keep then |out| - keep else 0;
    assert next == StreamState(st.shown + out[..cut], out[cut..], st.read + |token|, next.taken);
    CutContains(st, out, cut, next.read, next.taken, j);
  }

  /** The facts about one scan that do not depend on a window. */
  lemma {:induction false} ScanTracks(k: CharClass, s: string, rules: seq<Rule>, st: StreamState, token: string,
                                      keep: nat)
    requires SsnFirst(k, rules) && Tracks(k, s, st.read, st.carry)
    requires st.read + |token| <= |s| && s[st.read..st.read + |token|] == token
    ensures var n := st.read + |token|;
            var combined := st.carry + Tokens(token, st.read);
            var after := ApplyItems(rules[0], combined);
            var out := RedactItems(rules[1..], after);
            && Tracks(k, s, n, combined) && Tracks(k, s, n, after) && Tracks(k, s, n, out)
            && Sources(out) <= Sources(after) <= Sources(combined)
  {
    hide Copied, Chained, Rising;
    var n := st.read + |token|;
    var combined := st.carry + Tokens(token, st.read);
    CombinedTracks(k, s, st.read, st.carry, token);
    ApplyItemsTracks(k, s, n, rules[0], combined);
    RedactItemsTracks(k, s, n, rules[1..], ApplyItems(rules[0], combined));
  }

  lemma {:induction false} TokenSources(token: string, n: nat, x: nat)
    ensures x in Sources(Tokens(token, n)) <==> n <= x < n + |token|
  {
    if n <= x < n + |token| {
      SourceOf(Tokens(token, n), x - n);
    }
  }

  /** A position that has arrived is still there, taken by another rule, or under SSN shape. */
  lemma {:induction false} ScanAccounts(k: CharClass, s: string, rules: seq<Rule>, st: StreamState, token: string,
                                        keep: nat, x: nat)
    requires SsnFirst(k, rules) && Tracks(k, s, st.read, st.carry)
    requires st.read + |token| <= |s| && s[st.read..st.read + |token|] == token
    requires x < st.read ==> Accounted(k, s, st, x)
    requires x < st.read + |token|
    ensures Accounted(k, s, Scan(rules, st, token, keep), x)
  {
    hide Tracks, ApplyItems, RedactItems, QuietRules, WellBehaved, InShape;
    var combined := st.carry + Tokens(token, st.read);
    var after := ApplyItems(rules[0], combined);
    var out := RedactItems(rules[1..], after);
    var cut := if |out| > keep then |out| - keep else 0;
    ScanTracks(k, s, rules, st, token, keep);
    SourcesOfConcat(st.carry, Tokens(token, st.read));
    SourcesOfConcat(st.shown, out[..cut]);
    SourcesOfConcat(out[..cut], out[cut..]);
    assert out == out[..cut] + out[cut..];
    TokenSources(token, st.read, x);
    if x in Sources(combined) && x !in Sources(after) {
      SsnRuleRemovesShapes(k, s, st.read + |token|, combined, x);
    }
  }

  lemma {:induction false} RisingConcat(a: seq<Item>, b: seq<Item>)
    requires Rising(a) && Rising(b) && Before(a, b)
    ensures Rising(a + b)
  {
    var r := a + b;
    forall i, j | 0 <= i < j < |r| ensures Precedes(r[i], r[j]) {
      if j < |a| {
        assert Precedes(a[i], a[j]);
      } else if |a| <= i {
        assert Precedes(b[i - |a|], b[j - |a|]);
      } else if r[i].src.At? && r[j].src.At? {
        SourceOf(a, i);
        SourceOf(b, j - |a|);
      }
    }
  }

  lemma {:induction false} RisingSplit(items: seq<Item>, cut: nat)
    requires Rising(items) && cut <= |items|
    ensures Rising(items[..cut]) && Before(items[..cut], items[cut..])
  {
    forall i, j | 0 <= i < j < cut ensures Precedes(items[..cut][i], items[..cut][j]) {
      assert Precedes(items[i], items[j]);
    }
    forall x, y | x in Sources(items[..cut]) && y in Sources(items[cut..]) ensures x < y {
      var i :| 0 <= i < cut && items[i].src == At(x);
      var j :| 0 <= j < |items[cut..]| && items[cut..][j].src == At(y);
      assert Precedes(items[i], items[cut + j]);
    }
  }

  lemma {:induction false} CopiedLater(k: CharClass, s: string, m: nat, n: nat, items: seq<Item>)
    requires m <= n <= |s| && Copied(k, s, m, items)
    ensures Copied(k, s, n, items)
  {
    forall i | 0 <= i < |items| ensures Copy(k, s, n, items[i]) {
      assert Copy(k, s, m, items[i]);
    }
  }

  lemma {:induction false} CopiedConcat(k: CharClass, s: string, n: nat, a: seq<Item>, b: seq<Item>, cut: nat)
    requires n <= |s| && Copied(k, s, n, a) && Copied(k, s, n, b) && cut <= |b|
    ensures Copied(k, s, n, a + b[..cut])
  {
    var r := a + b[..cut];
    forall i | 0 <= i < |r| ensures Copy(k, s, n, r[i]) {
      assert Copy(k, s, n, if i < |a| then a[i] else b[i - |a|]);
    }
  }

  /** Sending the first `cut` items of a rescanned tail keeps everything in order. */
  lemma {:induction false} CutInOrder(k: CharClass, s: string, st: StreamState, out: seq<Item>, cut: nat, n: nat,
                                      taken: set<nat>)
    requires st.read <= n <= |s| && Copied(k, s, st.read, st.shown) && Rising(st.shown)
    requires Tracks(k, s, n, out) && Before(st.shown, out) && cut <= |out|
    ensures ShownInOrder(k, s, StreamState(st.shown + out[..cut], out[cut..], n, taken))
  {
    CopiedLater(k, s, st.read, n, st.shown);
    CopiedConcat(k, s, n, st.shown, out, cut);
    RisingSplit(out, cut);
    assert out == out[..cut] + out[cut..];
    SourcesOfConcat(out[..cut], out[cut..]);
    SourcesOfConcat(st.shown, out[..cut]);
    RisingConcat(st.shown, out[..cut]);
  }

  lemma {:induction false} ShownBeforeCombined(k: CharClass, s: string, st: StreamState, token: string)
    requires st.read <= |s| && ShownInOrder(k, s, st)
    ensures Before(st.shown, st.carry + Tokens(token, st.read))
  {
    SourcesOfConcat(st.carry, Tokens(token, st.read));
    forall x, y | x in Sources(st.shown) && y in Sources(st.carry + Tokens(token, st.read)) ensures x < y {
      var i :| 0 <= i < |st.shown| && st.shown[i].src == At(x);
      assert Copy(k, s, st.read, st.shown[i]);
      TokenSources(token, st.read, y);
    }
  }

  lemma {:induction false} ScanInOrder(k: CharClass, s: string, rules: seq<Rule>, st: StreamState, token: string,
                                       keep: nat)
    requires SsnFirst(k, rules) && Tracks(k, s, st.read, st.carry) && ShownInOrder(k, s, st)
    requires st.read + |token| <= |s| && s[st.read..st.read + |token|] == token
    ensures Tracks(k, s, st.read + |token|, Scan(rules, st, token, keep).carry)
    ensures ShownInOrder(k, s, Scan(rules, st, token, keep))
  {
    hide ApplyItems, RedactItems, RegexClasses, QuietRules, WellBehaved, Chained, Copied, Rising;
    var next := Scan(rules, st, token, keep);
    var out := RedactItems(rules[1..], ApplyItems(rules[0], st.carry + Tokens(token, st.read)));
    var cut := if |out| > keep then |out| - keep else 0;
    ScanTracks(k, s, rules, st, token, keep);
    ShownBeforeCombined(k, s, st, token);
    CutInOrder(k, s, st, out, cut, next.read, next.taken);
    SubItems(k, s, next.read, out, cut);
  }

  /** The invariant survives a scan. */
  lemma {:induction false} ScanInv(k: CharClass, s: string, rules: seq<Rule>, st: StreamState, token: string, keep: nat)
    requires SsnFirst(k, rules) && StreamInv(k, s, st)
    requires st.read + |token| <= |s| && s[st.read..st.read + |token|] == token
    requires keep == CARRY_SIZE || (keep == 0 && st.read + |token| == |s|)
    ensures StreamInv(k, s, Scan(rules, st, token, keep))
  {
    hide Tracks, ShownInOrder, Contained, Accounted, RegexClasses, QuietRules, WellBehaved, SsnAt, ApplyItems,
         RedactItems;
    var next := Scan(rules, st, token, keep);
    ScanInOrder(k, s, rules, st, token, keep);
    forall j: nat | SsnAt(k, s, j) && Untaken(next, j) ensures Contained(next, j) {
      assert Untaken(st, j);
      ScanContains(k, s, rules, st, token, keep, j);
    }
    forall x: nat | x < next.read ensures Accounted(k, s, next, x) {
      ScanAccounts(k, s, rules, st, token, keep, x);
    }
  }

  lemma {:induction false} SplitTail(s: string, read: nat, token: string, rest: string)
    requires read <= |s| && s[read..] == token + rest
    ensures var to := read + |token|;
            to <= |s| && s[read..to] == token && s[to..] == rest
  {
    var tail := s[read..];
    assert tail[..|token|] == s[read..read + |token|];
    assert tail[|token|..] == s[read + |token|..];
  }

  lemma {:induction false} NextToken(s: string, read: nat, tokens: seq<string>, last: string)
    requires read <= |s| && tokens != [] && s[read..] == Concat(tokens) + last
    ensures var to := read + |tokens[0]|;
            to <= |s| && s[read..to] == tokens[0] && s[to..] == Concat(tokens[1..]) + last
  {
    assert Concat(tokens) + last == tokens[0] + (Concat(tokens[1..]) + last);
    SplitTail(s, read, tokens[0], Concat(tokens[1..]) + last);
  }

  /** rest is what has not arrived yet. */
  ghost predicate Left(s: string, st: StreamState, rest: string) {
    st.read <= |s| && s[st.read..] == rest
  }

  lemma {:induction false} ScanReads(s: string, rules: seq<Rule>, st: StreamState, tokens: seq<string>, last: string)
    requires AllWellBehaved(rules) && rules != [] && tokens != [] && Left(s, st, Concat(tokens) + last)
    ensures st.read + |tokens[0]| <= |s| && s[st.read..st.read + |tokens[0]|] == tokens[0]
    ensures Left(s, Scan(rules, st, tokens[0], CARRY_SIZE), Concat(tokens[1..]) + last)
  {
    NextToken(s, st.read, tokens, last);
    hide ApplyItems, RedactItems, AllWellBehaved, Concat;
  }

  lemma {:induction false} NothingLeft(last: string)
    ensures Concat([]) + last == last
  {
  }

  lemma {:induction false} StreamItemsInv(k: CharClass, s: string, rules: seq<Rule>, tokens: seq<string>,
                                          st: StreamState, last: string)
    requires SsnFirst(k, rules) && StreamInv(k, s, st) && Left(s, st, Concat(tokens) + last)
    ensures StreamInv(k, s, StreamItems(rules, tokens, st)) && Left(s, StreamItems(rules, tokens, st), last)
  {
    hide StreamInv, Concat, Left, Scan, RegexClasses, QuietRules, WellBehaved;
    assert AllWellBehaved(rules) && rules != [];
    hide SsnFirst, AllWellBehaved;
    if tokens == [] {
      NothingLeft(last);
    } else {
      ScanReads(s, rules, st, tokens, last);
      ScanInv(k, s, rules, st, tokens[0], CARRY_SIZE);
      StreamItemsInv(k, s, rules, tokens[1..], Scan(rules, st, tokens[0], CARRY_SIZE), last);
    }
  }

  lemma {:induction false} StartInv(k: CharClass, s: string)
    ensures StreamInv(k, s, START)
  {
  }

  /** At every moment of every stream, whatever text is still to come: no character of an SSN of
      the whole text has been shown unless another rule took part of that SSN, and an SSN of which
      only a part has arrived is held whole in the carry. */
  lemma {:induction false} NoSsnShownEarly(k: CharClass, rules: seq<Rule>, tokens: seq<string>, rest: string, j: nat)
    requires SsnFirst(k, rules) && SsnAt(k, Concat(tokens) + rest, j)
    requires Untaken(StreamItems(rules, tokens, START), j)
    ensures Contained(StreamItems(rules, tokens, START), j)
  {
    var s := Concat(tokens) + rest;
    StartInv(k, s);
    assert s[0..] == s;
    StreamItemsInv(k, s, rules, tokens, START, rest);
  }

  /** A stream that ends with a done chunk: every SSN of the whole text is gone from what is shown
      unless another rule took part of it, however the text was cut into tokens; the characters
      shown are characters of the text in their order; and every character that is missing lay
      under text of SSN shape or was taken by another rule. */
  lemma {:induction false} NoSsnShown(k: CharClass, rules: seq<Rule>, tokens: seq<string>, last: string)
    requires SsnFirst(k, rules)
    ensures var s := Concat(tokens) + last;
            var end := Streamed(rules, tokens, last);
            && Text(end.shown) == StreamedText(rules, tokens, last)
            && Copied(k, s, |s|, end.shown) && Rising(end.shown)
            && (forall j: nat :: SsnAt(k, s, j) && Untaken(end, j) ==> Absent(end.shown, j))
            && (forall x: nat :: x < |s| ==> x in Sources(end.shown) || x in end.taken || InShape(k, s, x))
  {
    hide ApplyItems, RedactItems, RegexClasses, QuietRules, WellBehaved, SsnShape, Chained, Copied, Rising, Absent,
         InShape;
    var s := Concat(tokens) + last;
    StartInv(k, s);
    assert s[0..] == s;
    StreamItemsInv(k, s, rules, tokens, START, last);
    var before := StreamItems(rules, tokens, START);
    assert s[before.read..before.read + |last|] == last;
    ScanInv(k, s, rules, before, last, 0);
    StreamedItemsText(rules, tokens, last);
    var end := Streamed(rules, tokens, last);
    assert end.carry == [] && end.read == |s|;
    forall x: nat | x < |s| ensures x in Sources(end.shown) || x in end.taken || InShape(k, s, x) {
      assert Accounted(k, s, end, x);
    }
    forall j: nat | SsnAt(k, s, j) && Untaken(end, j) ensures Absent(end.shown, j) {
      assert Contained(end, j);
    }
  }
}
