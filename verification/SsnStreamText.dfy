/** The stream with the SSN rule alone, as text. What it shows is the provider's text with the
    placeholder in place of certain spans of SSN shape, every SSN among them; scanning the whole
    text at once replaces exactly the SSNs. The two agree exactly if the stream replaced nothing
    but SSNs, which a token boundary inside a longer number can prevent. The proof rebuilds the
    text from its spans, one splice at a time. */
module SsnStreamText {
  import opened Redaction
  import opened SsnStream

  ghost predicate AllMade(marks: seq<Item>) {
    marks != [] && forall i :: 0 <= i < |marks| ==> marks[i].src.Made?
  }

  /** source[x] is the item of position x. */
  ghost predicate Numbered(source: seq<Item>) {
    forall x :: 0 <= x < |source| ==> source[x].src == At(x)
  }

  lemma {:induction false} RebuildCons<T>(source: seq<T>, from: nat, span: Span, spans: seq<Span>, marks: seq<T>)
    requires from <= span.start < span.end && Ordered(spans, span.end, |source|)
    ensures Ordered([span] + spans, from, |source|)
    ensures Rebuild(source, from, [span] + spans, marks)
            == source[from..span.start] + marks + Rebuild(source, span.end, spans, marks)
  {
    assert ([span] + spans)[1..] == spans;
  }

  /** A stretch held inside a copied gap is that stretch of the source. */
  lemma {:induction false} HeldInGap(source: seq<Item>, from: nat, to: nat, items: seq<Item>, p: nat, j: nat, len: nat)
    requires Numbered(source) && from <= to <= |source| && p + len <= to - from <= |items|
    requires items[..to - from] == source[from..to] && Holds(items, p, j, len) && 0 < len
    ensures j == from + p && j + len <= to
  {
    assert items[p] == items[..to - from][p] == source[from + p];
  }

  lemma {:induction false} SpliceGap(source: seq<Item>, from: nat, spans: seq<Span>, marks: seq<Item>, p: nat, len: nat)
    requires Ordered(spans, from, |source|) && 0 < len
    requires from + p + len <= (if spans == [] then |source| else spans[0].start)
    ensures p + len <= |Rebuild(source, from, spans, marks)|
    ensures Ordered([Span(from + p, from + p + len)] + spans, from, |source|)
    ensures Splice(Rebuild(source, from, spans, marks), Span(p, p + len), marks)
            == Rebuild(source, from, [Span(from + p, from + p + len)] + spans, marks)
  {
    var span := Span(from + p, from + p + len);
    if spans != [] {
      RebuildCons(source, from, spans[0], spans[1..], marks);
      RebuildCons(source, span.end, spans[0], spans[1..], marks);
      assert spans == [spans[0]] + spans[1..];
    }
    RebuildCons(source, from, span, spans, marks);
    var items := Rebuild(source, from, spans, marks);
    assert items[..p] == source[from..span.start];
    assert items[p + len..] == Rebuild(source, span.end, spans, marks);
  }

  /** A held stretch that does not start in the first gap lies behind the first placeholder. */
  lemma {:induction false} HeldBehind(gap: seq<Item>, marks: seq<Item>, rest: seq<Item>, p: nat, j: nat, len: nat)
    requires AllMade(marks) && Holds(gap + marks + rest, p, j, len) && 0 < len
    ensures p + len <= |gap| || |gap| + |marks| <= p
    ensures |gap| + |marks| <= p ==> Holds(rest, p - |gap| - |marks|, j, len)
  {
    var items := gap + marks + rest;
    forall x | |gap| <= x < |gap| + |marks| ensures items[x].src.Made? {
      assert items[x] == marks[x - |gap|];
    }
    var x := if p < |gap| then |gap| else p;
    assert items[x] == items[x];
    if |gap| + |marks| <= p {
      var q := p - |gap| - |marks|;
      forall x | q <= x < q + len ensures rest[x].src == At(j + x - q) {
        assert rest[x] == items[x + |gap| + |marks|];
      }
    }
  }

  lemma {:induction false} SpliceBehind<T>(front: seq<T>, rest: seq<T>, q: nat, len: nat, marks: seq<T>)
    requires q + len <= |rest|
    ensures Splice(front + rest, Span(|front| + q, |front| + q + len), marks)
            == front + Splice(rest, Span(q, q + len), marks)
  {
  }

  lemma {:induction false} SpliceTail(source: seq<Item>, from: nat, spans: seq<Span>, marks: seq<Item>,
                                      p: nat, q: nat, len: nat, tail: seq<Span>)
    requires Ordered(spans, from, |source|) && spans != [] && Ordered(tail, spans[0].end, |source|)
    requires p == spans[0].start - from + |marks| + q
    requires q + len <= |Rebuild(source, spans[0].end, spans[1..], marks)|
    requires Splice(Rebuild(source, spans[0].end, spans[1..], marks), Span(q, q + len), marks)
             == Rebuild(source, spans[0].end, tail, marks)
    ensures p + len <= |Rebuild(source, from, spans, marks)|
    ensures Ordered([spans[0]] + tail, from, |source|)
    ensures Splice(Rebuild(source, from, spans, marks), Span(p, p + len), marks)
            == Rebuild(source, from, [spans[0]] + tail, marks)
  {
    var front := source[from..spans[0].start] + marks;
    var rest := Rebuild(source, spans[0].end, spans[1..], marks);
    assert Rebuild(source, from, spans, marks) == front + rest;
    hide Rebuild, Ordered;
    RebuildCons(source, from, spans[0], tail, marks);
    SpliceBehind(front, rest, q, len, marks);
  }

  /** more are spans and one span besides. */
  ghost predicate Adds(more: seq<Span>, spans: seq<Span>, span: Span) {
    forall s :: s in more <==> s in spans || s == span
  }

  lemma {:induction false} AddsInFront(spans: seq<Span>, span: Span)
    ensures Adds([span] + spans, spans, span)
  {
  }

  lemma {:induction false} AddsBehind(more: seq<Span>, spans: seq<Span>, span: Span)
    requires spans != [] && Adds(more, spans[1..], span)
    ensures Adds([spans[0]] + more, spans, span)
  {
    assert spans == [spans[0]] + spans[1..];
  }

  /** Where a stretch held in a rebuilt text lies: in the first gap, or behind the first placeholder. */
  lemma {:induction false} HeldWhere(source: seq<Item>, from: nat, spans: seq<Span>, marks: seq<Item>,
                                     p: nat, j: nat, len: nat)
    requires Numbered(source) && AllMade(marks) && Ordered(spans, from, |source|)
    requires Holds(Rebuild(source, from, spans, marks), p, j, len) && 0 < len
    ensures var to := if spans == [] then |source| else spans[0].start;
            if p + len <= to - from then j == from + p && j + len <= to
            else
              && spans != [] && Ordered(spans[1..], spans[0].end, |source|)
              && var q := p - (to - from) - |marks|;
                 q >= 0 && Holds(Rebuild(source, spans[0].end, spans[1..], marks), q, j, len)
  {
    var items := Rebuild(source, from, spans, marks);
    var to := if spans == [] then |source| else spans[0].start;
    if p + len <= to - from {
      hide Ordered;
      HeldInGap(source, from, to, items, p, j, len);
    } else {
      HeldBehind(source[from..to], marks, Rebuild(source, spans[0].end, spans[1..], marks), p, j, len);
    }
  }

  /** Splicing a held stretch out of a rebuilt text gives the text rebuilt with one more span. */
  lemma {:induction false} SpliceIntoRebuild(source: seq<Item>, from: nat, spans: seq<Span>, marks: seq<Item>,
                                             p: nat, j: nat, len: nat) returns (more: seq<Span>)
    requires Numbered(source) && AllMade(marks) && Ordered(spans, from, |source|)
    requires Holds(Rebuild(source, from, spans, marks), p, j, len) && 0 < len
    ensures Ordered(more, from, |source|) && Adds(more, spans, Span(j, j + len))
    ensures Splice(Rebuild(source, from, spans, marks), Span(p, p + len), marks) == Rebuild(source, from, more, marks)
    decreases spans
  {
    HeldWhere(source, from, spans, marks, p, j, len);
    hide Numbered, AllMade, Rebuild, Holds, Splice, Adds, Ordered;
    var to := if spans == [] then |source| else spans[0].start;
    if p + len <= to - from {
      SpliceGap(source, from, spans, marks, p, len);
      more := [Span(j, j + len)] + spans;
      AddsInFront(spans, Span(j, j + len));
    } else {
      var q := p - (to - from) - |marks|;
      var tail := SpliceIntoRebuild(source, spans[0].end, spans[1..], marks, q, j, len);
      SpliceTail(source, from, spans, marks, p, q, len, tail);
      more := [spans[0]] + tail;
      AddsBehind(tail, spans, Span(j, j + len));
    }
  }

  ghost predicate ShapeSpans(k: CharClass, s: string, spans: seq<Span>) {
    forall span :: span in spans ==> ShapeSpan(k, s, span)
  }

  ghost predicate ShapeSpan(k: CharClass, s: string, span: Span) {
    span.end == span.start + SSN_LENGTH && SsnShape(k, s, span.start)
  }

  /** The same below a part that is not scanned again. */
  lemma {:induction false} SpliceBelow(source: seq<Item>, spans: seq<Span>, marks: seq<Item>, shown: seq<Item>,
                                       items: seq<Item>, p: nat, j: nat, len: nat) returns (more: seq<Span>)
    requires Numbered(source) && AllMade(marks) && Ordered(spans, 0, |source|)
    requires shown + items == Rebuild(source, 0, spans, marks)
    requires Holds(items, p, j, len) && 0 < len
    ensures Ordered(more, 0, |source|)
    ensures shown + Splice(items, Span(p, p + len), marks) == Rebuild(source, 0, more, marks)
    ensures forall s :: s in more <==> s in spans || s == Span(j, j + len)
  {
    var all := shown + items;
    forall x | |shown| + p <= x < |shown| + p + len ensures all[x].src == At(j + x - (|shown| + p)) {
      assert all[x] == items[x - |shown|];
    }
    more := SpliceIntoRebuild(source, 0, spans, marks, |shown| + p, j, len);
    SpliceBehind(shown, items, p, len, marks);
  }

  lemma {:induction false} HoldsInPrefix(a: seq<Item>, b: seq<Item>, n: nat, p: nat, j: nat, len: nat)
    requires n <= |a| && n <= |b| && a[..n] == b[..n] && Holds(a, p, j, len) && p + len <= n
    ensures Holds(b, p, j, len)
  {
    forall q | p <= q < p + len ensures b[q].src == At(j + q - p) {
      assert b[q] == b[..n][q] == a[..n][q] == a[q];
    }
  }

  /** A match of the SSN rule on followed text: eleven neighbouring characters of s, of SSN shape. */
  ghost predicate HeldShape(k: CharClass, s: string, items: seq<Item>, h: Span) {
    && h.end == h.start + SSN_LENGTH <= |items|
    && items[h.start].src.At? && Holds(items, h.start, items[h.start].src.index, SSN_LENGTH)
    && SsnShape(k, s, items[h.start].src.index)
  }

  /** One splice of the SSN rule. */
  lemma {:induction false} SpliceHit(k: CharClass, s: string, source: seq<Item>, spans: seq<Span>, shown: seq<Item>,
                                     items: seq<Item>, inner: seq<Item>, h: Span, marks: seq<Item>)
      returns (more: seq<Span>)
    requires Numbered(source) && AllMade(marks) && Ordered(spans, 0, |source|) && ShapeSpans(k, s, spans)
    requires shown + inner == Rebuild(source, 0, spans, marks)
    requires HeldShape(k, s, items, h) && h.end <= |inner| && inner[..h.end] == items[..h.end]
    ensures Ordered(more, 0, |source|) && ShapeSpans(k, s, more)
    ensures shown + Splice(inner, h, marks) == Rebuild(source, 0, more, marks)
  {
    hide Numbered, AllMade, Rebuild, SsnShape, Ordered;
    var j := items[h.start].src.index;
    HoldsInPrefix(items, inner, h.end, h.start, j, SSN_LENGTH);
    hide Holds;
    more := SpliceBelow(source, spans, marks, shown, inner, h.start, j, SSN_LENGTH);
    assert ShapeSpan(k, s, Span(j, j + SSN_LENGTH));
  }

  /** All the splices of one scan with the SSN rule. */
  lemma {:induction false} SplicesBelow(k: CharClass, s: string, source: seq<Item>, spans: seq<Span>, shown: seq<Item>,
                                        items: seq<Item>, from: nat, hits: seq<Span>, marks: seq<Item>)
      returns (more: seq<Span>)
    requires Numbered(source) && AllMade(marks) && Ordered(spans, 0, |source|) && Ordered(hits, from, |items|)
    requires shown + items == Rebuild(source, 0, spans, marks) && ShapeSpans(k, s, spans)
    requires forall h :: h in hits ==> HeldShape(k, s, items, h)
    ensures Ordered(more, 0, |source|) && ShapeSpans(k, s, more)
    ensures shown + SpliceAll(items, from, hits, marks) == Rebuild(source, 0, more, marks)
    decreases hits
  {
    hide Numbered, AllMade, HeldShape, Rebuild, ShapeSpans;
    if hits == [] {
      more := spans;
    } else {
      var rest := SplicesBelow(k, s, source, spans, shown, items, hits[0].end, hits[1..], marks);
      var inner := SpliceAll(items, hits[0].end, hits[1..], marks);
      more := SpliceHit(k, s, source, rest, shown, items, inner, hits[0], marks);
    }
  }

  lemma {:induction false} HitsAreHeldShapes(k: CharClass, s: string, n: nat, items: seq<Item>, h: Span)
    requires RegexClasses(k) && Tracks(k, s, n, items) && h in Hits(SsnRule(k), Text(items))
    ensures HeldShape(k, s, items, h)
  {
    FindSsnExact(k, Text(items), 0, h);
    MatchIsSourceShape(k, s, n, items, h.start);
  }

  /** items are the first n characters of s, rebuilt with spans of SSN shape. */
  ghost predicate Rebuilt(k: CharClass, s: string, n: nat, items: seq<Item>, spans: seq<Span>) {
    && n <= |s|
    && Ordered(spans, 0, n) && ShapeSpans(k, s, spans)
    && items == Rebuild(Tokens(s[..n], 0), 0, spans, Marks(Placeholder("SSN")))
  }

  lemma {:induction false} RebuildLonger<T>(source: seq<T>, more: seq<T>, from: nat, spans: seq<Span>, marks: seq<T>)
    requires Ordered(spans, from, |source|)
    ensures Ordered(spans, from, |source + more|)
    ensures Rebuild(source + more, from, spans, marks) == Rebuild(source, from, spans, marks) + more
    decreases spans
  {
    if spans == [] {
      assert (source + more)[from..] == source[from..] + more;
    } else {
      var gap := source[from..spans[0].start];
      assert (source + more)[from..spans[0].start] == gap;
      RebuildLonger(source, more, spans[0].end, spans[1..], marks);
      var rest := Rebuild(source, spans[0].end, spans[1..], marks);
      assert (gap + marks + rest) + more == gap + marks + (rest + more);
    }
  }

  lemma {:induction false} TokensLonger(s: string, read: nat, token: string)
    requires read + |token| <= |s| && s[read..read + |token|] == token
    ensures Tokens(s[..read + |token|], 0) == Tokens(s[..read], 0) + Tokens(token, read)
  {
    var longer := Tokens(s[..read + |token|], 0);
    var parts := Tokens(s[..read], 0) + Tokens(token, read);
    forall x | 0 <= x < |longer| ensures longer[x] == parts[x] {
      assert x >= read ==> s[x] == s[read..read + |token|][x - read];
    }
  }

  lemma {:induction false} CombinedRebuilt(k: CharClass, s: string, st: StreamState, token: string, spans: seq<Span>)
    requires Rebuilt(k, s, st.read, st.shown + st.carry, spans)
    requires st.read + |token| <= |s| && s[st.read..st.read + |token|] == token
    ensures Rebuilt(k, s, st.read + |token|, st.shown + (st.carry + Tokens(token, st.read)), spans)
  {
    TokensLonger(s, st.read, token);
    MoreBehind(Tokens(s[..st.read], 0), st.shown, st.carry, Tokens(token, st.read), spans, Marks(Placeholder("SSN")));
    assert |Tokens(s[..st.read], 0)| == st.read;
  }

  lemma {:induction false} MoreBehind(source: seq<Item>, shown: seq<Item>, carry: seq<Item>, more: seq<Item>,
                                      spans: seq<Span>, marks: seq<Item>)
    requires Ordered(spans, 0, |source|) && shown + carry == Rebuild(source, 0, spans, marks)
    ensures Ordered(spans, 0, |source| + |more|)
    ensures shown + (carry + more) == Rebuild(source + more, 0, spans, marks)
  {
    RebuildLonger(source, more, 0, spans, marks);
    hide Rebuild, Ordered;
    assert shown + (carry + more) == (shown + carry) + more;
  }

  lemma {:induction false} ScanKeepsText(k: CharClass, st: StreamState, token: string, keep: nat)
    requires SsnFirst(k, [SsnRule(k)])
    ensures var next := Scan([SsnRule(k)], st, token, keep);
            && next.shown + next.carry == st.shown + ApplyItems(SsnRule(k), st.carry + Tokens(token, st.read))
            && next.taken == st.taken && next.read == st.read + |token|
  {
    hide ApplyItems, SsnRule;
    var next := Scan([SsnRule(k)], st, token, keep);
    var out := ApplyItems(SsnRule(k), st.carry + Tokens(token, st.read));
    assert [SsnRule(k)][1..] == [];
    assert RedactItems([], out) == out;
    var cut := if |out| > keep then |out| - keep else 0;
    assert next.shown == st.shown + out[..cut] && next.carry == out[cut..];
  }

  lemma {:induction false} SsnFirstAlone(k: CharClass)
    requires RegexClasses(k)
    ensures SsnFirst(k, [SsnRule(k)])
    ensures WellBehaved(SsnRule(k)) && Quiet(k, Placeholder(SsnRule(k).kind))
  {
    SsnRuleWellBehaved(k);
    assert [SsnRule(k)][1..] == [];
  }

  /** One application of the SSN rule below a part already shown. */
  lemma {:induction false} ApplyRebuilt(k: CharClass, s: string, n: nat, shown: seq<Item>, items: seq<Item>,
                                        spans: seq<Span>)
      returns (more: seq<Span>)
    requires RegexClasses(k) && WellBehaved(SsnRule(k)) && Tracks(k, s, n, items)
    requires Rebuilt(k, s, n, shown + items, spans)
    ensures Rebuilt(k, s, n, shown + ApplyItems(SsnRule(k), items), more)
  {
    var hits := Hits(SsnRule(k), Text(items));
    ApplyItemsTracks(k, s, n, SsnRule(k), items);
    assert forall h :: h in hits ==> HeldShape(k, s, items, h) by {
      forall h | h in hits ensures HeldShape(k, s, items, h) {
        HitsAreHeldShapes(k, s, n, items, h);
      }
    }
    hide Hits, HeldShape, ShapeSpans, FindSsn, Accepted, Tracks;
    more := SplicesBelow(k, s, Tokens(s[..n], 0), spans, shown, items, 0, hits, Marks(Placeholder("SSN")));
  }

  /** One scan with the SSN rule alone, or the last flush. */
  lemma {:induction false} ScanRebuilt(k: CharClass, s: string, st: StreamState, token: string, keep: nat,
                                       spans: seq<Span>)
      returns (more: seq<Span>)
    requires SsnFirst(k, [SsnRule(k)]) && Tracks(k, s, st.read, st.carry)
    requires Rebuilt(k, s, st.read, st.shown + st.carry, spans)
    requires st.read + |token| <= |s| && s[st.read..st.read + |token|] == token
    ensures var next := Scan([SsnRule(k)], st, token, keep);
            Rebuilt(k, s, next.read, next.shown + next.carry, more)
  {
    hide Tracks, QuietRules, ApplyItems, SsnRule, RegexClasses, Rebuilt, WellBehaved, Scan;
    SsnFirstAlone(k);
    CombinedTracks(k, s, st.read, st.carry, token);
    CombinedRebuilt(k, s, st, token, spans);
    more := ApplyRebuilt(k, s, st.read + |token|, st.shown, st.carry + Tokens(token, st.read), spans);
    ScanKeepsText(k, st, token, keep);
  }

  lemma {:induction false} StreamInvTracks(k: CharClass, s: string, st: StreamState)
    requires StreamInv(k, s, st)
    ensures Tracks(k, s, st.read, st.carry)
  {
  }

  ghost predicate RebuiltStream(k: CharClass, s: string, st: StreamState, spans: seq<Span>) {
    && StreamInv(k, s, st) && st.taken == {}
    && Rebuilt(k, s, st.read, st.shown + st.carry, spans)
  }

  lemma {:induction false} RebuiltStep(k: CharClass, s: string, st: StreamState, token: string, tail: string,
                                       spans: seq<Span>)
      returns (more: seq<Span>)
    requires SsnFirst(k, [SsnRule(k)]) && RebuiltStream(k, s, st, spans)
    requires st.read <= |s| && s[st.read..] == token + tail
    ensures var next := Scan([SsnRule(k)], st, token, CARRY_SIZE);
            RebuiltStream(k, s, next, more) && next.read <= |s| && s[next.read..] == tail
  {
    hide StreamInv, QuietRules, RegexClasses, Rebuilt, WellBehaved, Scan, Tracks;
    assert s[st.read..][..|token|] == s[st.read..st.read + |token|];
    assert s[st.read..][|token|..] == s[st.read + |token|..];
    StreamInvTracks(k, s, st);
    more := ScanRebuilt(k, s, st, token, CARRY_SIZE, spans);
    ScanInv(k, s, [SsnRule(k)], st, token, CARRY_SIZE);
    ScanKeepsText(k, st, token, CARRY_SIZE);
  }

  lemma {:induction false} StreamRebuilt(k: CharClass, s: string, tokens: seq<string>, st: StreamState, last: string,
                                         spans: seq<Span>)
      returns (more: seq<Span>)
    requires SsnFirst(k, [SsnRule(k)]) && RebuiltStream(k, s, st, spans)
    requires st.read <= |s| && s[st.read..] == Concat(tokens) + last
    ensures var end := StreamItems([SsnRule(k)], tokens, st);
            RebuiltStream(k, s, end, more) && end.read <= |s| && s[end.read..] == last
  {
    hide RebuiltStream, QuietRules, RegexClasses, WellBehaved, Scan, SsnRule;
    if tokens == [] {
      assert Concat(tokens) + last == last;
      more := spans;
    } else {
      var tail := Concat(tokens[1..]) + last;
      assert Concat(tokens) + last == tokens[0] + tail;
      var first := RebuiltStep(k, s, st, tokens[0], tail, spans);
      more := StreamRebuilt(k, s, tokens[1..], Scan([SsnRule(k)], st, tokens[0], CARRY_SIZE), last, first);
    }
  }

  /** A span of SSN shape that covers the first character of a shape behind a non-word character is
      that shape. */
  lemma {:induction false} OnlyItselfCoversStart(k: CharClass, s: string, i: nat, j: nat)
    requires RegexClasses(k) && SsnShape(k, s, i) && SsnShape(k, s, j) && i <= j < i + SSN_LENGTH
    requires j == 0 || !k.word(s[j - 1])
    ensures i == j
  {
    if i < j {
      assert SsnChar(k, 0, s[j]) && SsnChar(k, 2, s[j + 2]) && SsnChar(k, 3, s[j + 3]);
      assert SsnChar(k, 6, s[i + 6]) && SsnChar(k, 10, s[i + 10]);
      DigitBehindNonWord(k, s, i, j);
    }
  }

  /** Positions missing from a rebuilt text lie under its spans. */
  lemma {:induction false} MissingIsSpanned(source: seq<Item>, from: nat, spans: seq<Span>, marks: seq<Item>, x: nat)
      returns (span: Span)
    requires Numbered(source) && Ordered(spans, from, |source|) && from <= x < |source|
    requires x !in Sources(Rebuild(source, from, spans, marks))
    ensures span in spans && span.start <= x < span.end
    decreases spans
  {
    assert spans != [] by {
      if spans == [] {
        SourceOf(source[from..], x - from);
      }
    }
    var gap := source[from..spans[0].start];
    var rest := Rebuild(source, spans[0].end, spans[1..], marks);
    SourcesOfConcat(gap + marks, rest);
    SourcesOfConcat(gap, marks);
    if x < spans[0].start {
      SourceOf(gap, x - from);
    }
    if x < spans[0].end {
      span := spans[0];
    } else {
      span := MissingIsSpanned(source, spans[0].end, spans[1..], marks, x);
    }
  }

  lemma {:induction false} TextOfConcat(a: seq<Item>, b: seq<Item>, c: seq<Item>)
    ensures Text(a + b + c) == Text(a) + Text(b) + Text(c)
  {
  }

  lemma {:induction false} RebuildText(source: seq<Item>, from: nat, spans: seq<Span>, mark: string)
    requires Ordered(spans, from, |source|)
    ensures Text(Rebuild(source, from, spans, Marks(mark))) == Rebuild(Text(source), from, spans, mark)
    decreases spans
  {
    if spans == [] {
      assert Text(source[from..]) == Text(source)[from..];
    } else {
      RebuildText(source, spans[0].end, spans[1..], mark);
      var rest := Rebuild(source, spans[0].end, spans[1..], Marks(mark));
      assert Text(source[from..spans[0].start] + Marks(mark) + rest)
          == Text(source)[from..spans[0].start] + mark + Text(rest) by {
        TextOfConcat(source[from..spans[0].start], Marks(mark), rest);
        assert Text(source[from..spans[0].start]) == Text(source)[from..spans[0].start];
        assert Text(Marks(mark)) == mark;
      }
    }
  }

  lemma {:induction false} SsnIsSpanned(k: CharClass, s: string, n: nat, items: seq<Item>, spans: seq<Span>,
                                        j: nat)
    requires RegexClasses(k) && Rebuilt(k, s, n, items, spans) && SsnAt(k, s, j) && Absent(items, j)
    requires j + SSN_LENGTH <= n
    ensures Span(j, j + SSN_LENGTH) in spans
  {
    var span := MissingIsSpanned(Tokens(s[..n], 0), 0, spans, Marks(Placeholder("SSN")), j);
    assert ShapeSpan(k, s, span);
    OnlyItselfCoversStart(k, s, span.start, j);
  }

  lemma {:induction false} StreamedRebuilt(k: CharClass, tokens: seq<string>, last: string) returns (spans: seq<Span>)
    requires SsnFirst(k, [SsnRule(k)])
    ensures var s := Concat(tokens) + last;
            var end := Streamed([SsnRule(k)], tokens, last);
            Rebuilt(k, s, |s|, end.shown, spans) && end.taken == {}
  {
    hide QuietRules, RegexClasses, WellBehaved, SsnRule, Scan;
    var s := Concat(tokens) + last;
    StartInv(k, s);
    assert s[0..] == s && s[..0] == "";
    assert Rebuilt(k, s, 0, [], []);
    var first := StreamRebuilt(k, s, tokens, START, last, []);
    var st := StreamItems([SsnRule(k)], tokens, START);
    assert s[st.read..st.read + |last|] == last;
    StreamInvTracks(k, s, st);
    spans := ScanRebuilt(k, s, st, last, 0, first);
    ScanKeepsText(k, st, last, 0);
    LastScan([SsnRule(k)], st, last);
  }

  lemma {:induction false} LastScan(rules: seq<Rule>, st: StreamState, token: string)
    requires AllWellBehaved(rules) && rules != []
    ensures var next := Scan(rules, st, token, 0); next.shown + next.carry == next.shown
  {
  }

  lemma {:induction false} EverySsnSpanned(k: CharClass, tokens: seq<string>, last: string, spans: seq<Span>)
    requires SsnFirst(k, [SsnRule(k)])
    requires var s := Concat(tokens) + last;
             var end := Streamed([SsnRule(k)], tokens, last);
             Rebuilt(k, s, |s|, end.shown, spans) && end.taken == {}
    ensures var s := Concat(tokens) + last;
            forall j: nat :: SsnAt(k, s, j) ==> Span(j, j + SSN_LENGTH) in spans
  {
    var s := Concat(tokens) + last;
    assert forall j: nat :: SsnAt(k, s, j) ==> j + SSN_LENGTH <= |s|;
    hide QuietRules, RegexClasses, WellBehaved, AllWellBehaved, SsnRule, SsnAt, Absent, Copied, Rising, Streamed,
         StreamedText, Rebuilt;
    NoSsnShown(k, [SsnRule(k)], tokens, last);
    forall j: nat | SsnAt(k, s, j) ensures Span(j, j + SSN_LENGTH) in spans {
      SsnIsSpanned(k, s, |s|, Streamed([SsnRule(k)], tokens, last).shown, spans, j);
    }
  }

  lemma {:induction false} RebuiltText(k: CharClass, s: string, items: seq<Item>, spans: seq<Span>)
    requires Rebuilt(k, s, |s|, items, spans)
    ensures Ordered(spans, 0, |s|) && ShapeSpans(k, s, spans)
    ensures Text(items) == Rebuild(s, 0, spans, Placeholder("SSN"))
  {
    RebuildText(Tokens(s[..|s|], 0), 0, spans, Placeholder("SSN"));
    assert Text(Tokens(s[..|s|], 0)) == s;
  }

  /** However a text is cut into tokens, the stream with the SSN rule shows that text with the
      placeholder in place of certain spans, in order and disjoint: every SSN is one of them, and
      each of them has the shape of an SSN. */
  lemma {:induction false} StreamedSsnText(k: CharClass, tokens: seq<string>, last: string) returns (spans: seq<Span>)
    requires RegexClasses(k)
    ensures AllWellBehaved([SsnRule(k)])
    ensures var s := Concat(tokens) + last;
            && Ordered(spans, 0, |s|) && ShapeSpans(k, s, spans)
            && (forall j: nat :: SsnAt(k, s, j) ==> Span(j, j + SSN_LENGTH) in spans)
            && StreamedText([SsnRule(k)], tokens, last) == Rebuild(s, 0, spans, Placeholder("SSN"))
    ensures var s := Concat(tokens) + last;
            Rebuilt(k, s, |s|, Streamed([SsnRule(k)], tokens, last).shown, spans)
  {
    hide QuietRules, RegexClasses, WellBehaved, AllWellBehaved, SsnRule, SsnAt, Rebuilt, Streamed, StreamedText;
    var s := Concat(tokens) + last;
    SsnFirstAlone(k);
    spans := StreamedRebuilt(k, tokens, last);
    StreamedItemsText([SsnRule(k)], tokens, last);
    RebuiltText(k, s, Streamed([SsnRule(k)], tokens, last).shown, spans);
    EverySsnSpanned(k, tokens, last, spans);
  }

  /** Scanning the whole text at once replaces exactly the SSNs. */
  lemma {:induction false} WholeSsnText(k: CharClass, s: string)
    requires RegexClasses(k)
    ensures AllWellBehaved([SsnRule(k)])
    ensures Ordered(FindSsn(k, s, 0), 0, |s|)
    ensures RedactText([SsnRule(k)], s) == Rebuild(s, 0, FindSsn(k, s, 0), Placeholder("SSN"))
    ensures forall span :: span in FindSsn(k, s, 0) <==> span.end == span.start + SSN_LENGTH && SsnAt(k, s, span.start)
  {
    SsnFirstAlone(k);
    FindSsnOrdered(k, s, 0);
    AcceptedAll(SsnRule(k), s, FindSsn(k, s, 0));
    SpliceAllIsRebuild(s, 0, FindSsn(k, s, 0), Placeholder("SSN"));
    forall span: Span
      ensures span in FindSsn(k, s, 0) <==> span.end == span.start + SSN_LENGTH && SsnAt(k, s, span.start)
    {
      FindSsnExact(k, s, 0, span);
    }
  }

  lemma {:induction false} AcceptedAll(rule: Rule, text: string, spans: seq<Span>)
    requires forall t: string, s: Span :: rule.accept(t, s)
    ensures Accepted(rule, text, spans) == spans
  {
    if spans != [] {
      AcceptedAll(rule, text, spans[1..]);
    }
  }

  // ---- streaming against scanning the whole text ----

  lemma {:induction false} OrderedStarts(spans: seq<Span>, from: nat, n: nat, span: Span)
    requires Ordered(spans, from, n) && span in spans
    ensures from <= span.start < span.end
  {
    if span != spans[0] {
      OrderedStarts(spans[1..], spans[0].end, n, span);
    }
  }

  lemma {:induction false} OrderedFirst(spans: seq<Span>, from: nat, n: nat, span: Span)
    requires Ordered(spans, from, n) && span in spans
    ensures span == spans[0] || spans[0].end <= span.start
  {
    if span != spans[0] {
      OrderedStarts(spans[1..], spans[0].end, n, span);
    }
  }

  lemma {:induction false} OrderedRest(spans: seq<Span>, from: nat, n: nat, span: Span)
    requires Ordered(spans, from, n) && spans != []
    ensures span in spans[1..] <==> span in spans && span != spans[0]
  {
    if span in spans[1..] {
      OrderedStarts(spans[1..], spans[0].end, n, span);
    }
  }

  /** n more of the differences in length between a placeholder and an SSN. */
  function Extra(n: nat, markLength: nat): int {
    if n == 0 then 0 else Extra(n - 1, markLength) + markLength - SSN_LENGTH
  }

  lemma {:induction false} ExtraGrows(a: nat, b: nat, markLength: nat)
    requires a < b && markLength > SSN_LENGTH
    ensures Extra(a, markLength) < Extra(b, markLength)
    decreases b
  {
    if a < b - 1 {
      ExtraGrows(a, b - 1, markLength);
    }
  }

  lemma {:induction false} RebuildLength<T>(s: seq<T>, from: nat, spans: seq<Span>, mark: seq<T>)
    requires Ordered(spans, from, |s|) && AllWide(spans)
    ensures |Rebuild(s, from, spans, mark)| == |s| - from + Extra(|spans|, |mark|)
    decreases spans
  {
    if spans != [] {
      assert spans[0] in spans;
      RebuildLength(s, spans[0].end, spans[1..], mark);
    }
  }

  /** Of two ordered lists, one inside the other, the inner is not longer, and shorter unless equal. */
  lemma {:induction false} OrderedInside(a: seq<Span>, b: seq<Span>, from: nat, n: nat)
    requires Ordered(a, from, n) && Ordered(b, from, n)
    requires forall span :: span in a ==> span in b
    ensures |a| <= |b| && (|a| == |b| ==> a == b)
    decreases |b|
  {
    if a != [] {
      assert a[0] in b;
      if a[0] == b[0] {
        forall span | span in a[1..] ensures span in b[1..] {
          OrderedRest(a, from, n, span);
          OrderedRest(b, from, n, span);
        }
        OrderedInside(a[1..], b[1..], a[0].end, n);
      } else {
        OrderedFirst(b, from, n, a[0]);
        forall span | span in a ensures span in b[1..] {
          OrderedFirst(a, from, n, span);
          OrderedRest(b, from, n, span);
        }
        OrderedFromFirst(a, from, b[0].end, n);
        OrderedInside(a, b[1..], b[0].end, n);
      }
    }
  }

  lemma {:induction false} OrderedFromFirst(spans: seq<Span>, from: nat, first: nat, n: nat)
    requires Ordered(spans, from, n) && spans != [] && first <= spans[0].start
    ensures Ordered(spans, first, n)
  {
  }

  ghost predicate AllWide(spans: seq<Span>) {
    forall span :: span in spans ==> span.end == span.start + SSN_LENGTH
  }

  /** A placeholder is longer than an SSN, so more of them make a longer text. */
  lemma {:induction false} RebuildsAgree(s: string, found: seq<Span>, spans: seq<Span>, mark: string)
    requires Ordered(found, 0, |s|) && Ordered(spans, 0, |s|) && AllWide(found) && AllWide(spans)
    requires |mark| > SSN_LENGTH && forall span :: span in found ==> span in spans
    ensures Rebuild(s, 0, found, mark) == Rebuild(s, 0, spans, mark) <==> found == spans
  {
    RebuildLength(s, 0, spans, mark);
    RebuildLength(s, 0, found, mark);
    OrderedInside(found, spans, 0, |s|);
    hide Rebuild, Ordered;
    if |found| < |spans| {
      ExtraGrows(|found|, |spans|, |mark|);
    }
  }

  lemma {:induction false} AllFound(k: CharClass, s: string, found: seq<Span>, spans: seq<Span>)
    requires AllWide(spans) && Ordered(found, 0, |s|) && Ordered(spans, 0, |s|)
    requires forall span :: span in found <==> span.end == span.start + SSN_LENGTH && SsnAt(k, s, span.start)
    requires forall span :: span in found ==> span in spans
    ensures found == spans <==> forall span :: span in spans ==> SsnAt(k, s, span.start)
  {
    hide SsnAt;
    if forall span :: span in spans ==> SsnAt(k, s, span.start) {
      OrderedInside(found, spans, 0, |s|);
      OrderedInside(spans, found, 0, |s|);
    }
  }

  /** A stream shows what scanning its whole text at once shows exactly if every span it replaced is an
      SSN of the whole text. */
  lemma {:induction false} StreamedEqualsWholeWhen(k: CharClass, tokens: seq<string>,
                                                   last: string) returns (spans: seq<Span>)
    requires RegexClasses(k)
    ensures AllWellBehaved([SsnRule(k)])
    ensures var s := Concat(tokens) + last;
            && Ordered(spans, 0, |s|) && ShapeSpans(k, s, spans)
            && StreamedText([SsnRule(k)], tokens, last) == Rebuild(s, 0, spans, Placeholder("SSN"))
            && (StreamedText([SsnRule(k)], tokens, last) == RedactText([SsnRule(k)], s)
                <==> forall span :: span in spans ==> SsnAt(k, s, span.start))
    ensures var s := Concat(tokens) + last;
            Rebuilt(k, s, |s|, Streamed([SsnRule(k)], tokens, last).shown, spans)
  {
    hide StreamedText, Streamed, Rebuilt, RedactText, SsnRule, RegexClasses, SsnAt, Rebuild, Ordered, FindSsn, SsnShape;
    var s := Concat(tokens) + last;
    spans := StreamedSsnText(k, tokens, last);
    WholeSsnText(k, s);
    var found := FindSsn(k, s, 0);
    assert AllWide(spans) && AllWide(found);
    forall span | span in found ensures span in spans {
      assert span == Span(span.start, span.start + SSN_LENGTH);
    }
    RebuildsAgree(s, found, spans, Placeholder("SSN"));
    AllFound(k, s, found, spans);
  }

  /** If every stretch of SSN shape in the text stands between non-word characters, streaming the
      text in any pieces shows exactly what scanning it at once shows. */
  lemma {:induction false} StreamedEqualsWhole(k: CharClass, tokens: seq<string>, last: string)
    requires RegexClasses(k)
    requires var s := Concat(tokens) + last; forall p: nat :: SsnShape(k, s, p) ==> SsnAt(k, s, p)
    ensures AllWellBehaved([SsnRule(k)])
    ensures StreamedText([SsnRule(k)], tokens, last) == RedactText([SsnRule(k)], Concat(tokens) + last)
  {
    hide StreamedText, RedactText, SsnRule, SsnShape, SsnAt, Rebuild, Ordered, RegexClasses;
    var s := Concat(tokens) + last;
    var spans := StreamedEqualsWholeWhen(k, tokens, last);
    forall span | span in spans ensures SsnAt(k, s, span.start) {
      assert ShapeSpan(k, s, span);
    }
  }

  lemma {:induction false} ShapeHasDash(k: CharClass, s: string, p: nat)
    requires SsnShape(k, s, p)
    ensures s[p + 3] == '-'
  {
    assert SsnChar(k, 3, s[p + 3]);
  }

  lemma {:induction false} NoDashNoSsn(k: CharClass, s: string)
    requires RegexClasses(k) && '-' !in s
    ensures AllWellBehaved([SsnRule(k)]) && RedactText([SsnRule(k)], s) == s
  {
    WholeSsnText(k, s);
    assert FindSsn(k, s, 0) == [] by {
      if FindSsn(k, s, 0) != [] {
        var p := FindSsn(k, s, 0)[0].start;
        ShapeHasDash(k, s, p);
      }
    }
  }

  lemma {:induction false} FindAlone(k: CharClass, s: string)
    requires |s| == SSN_LENGTH && SsnShape(k, s, 0)
    ensures FindSsn(k, s, 0) == [Span(0, SSN_LENGTH)]
  {
    hide SsnShape;
    assert SsnAt(k, s, 0);
    assert FindSsn(k, s, SSN_LENGTH) == [];
  }

  lemma {:induction false} RebuildAlone(s: string, mark: string)
    requires |s| == SSN_LENGTH
    ensures Rebuild(s, 0, [Span(0, SSN_LENGTH)], mark) == mark
  {
    assert [Span(0, SSN_LENGTH)][1..] == [];
    assert Rebuild(s, SSN_LENGTH, [], mark) == [];
    assert s[0..0] + mark + [] == mark;
  }

  lemma {:induction false} SsnAlone(k: CharClass, s: string)
    requires RegexClasses(k) && |s| == SSN_LENGTH && SsnShape(k, s, 0)
    ensures AllWellBehaved([SsnRule(k)]) && RedactText([SsnRule(k)], s) == Placeholder("SSN")
  {
    WholeSsnText(k, s);
    FindAlone(k, s);
    RebuildAlone(s, Placeholder("SSN"));
  }

  lemma {:induction false} LongerNumberStays(k: CharClass, s: string)
    requires RegexClasses(k) && |s| == SSN_LENGTH + 1 && k.word(s[SSN_LENGTH]) && s[4] != '-'
    ensures AllWellBehaved([SsnRule(k)]) && RedactText([SsnRule(k)], s) == s
  {
    WholeSsnText(k, s);
    assert !SsnAt(k, s, 1) by {
      if SsnAt(k, s, 1) {
        ShapeHasDash(k, s, 1);
      }
    }
    assert FindSsn(k, s, 2) == [];
    assert FindSsn(k, s, 1) == [];
    assert FindSsn(k, s, 0) == [];
  }

  /** A stream of one token short enough to be carried whole. */
  lemma {:induction false} OneToken(rules: seq<Rule>, token: string, last: string)
    requires AllWellBehaved(rules) && |RedactText(rules, token)| <= CARRY_SIZE
    ensures StreamedText(rules, [token], last) == RedactText(rules, RedactText(rules, token) + last)
  {
    hide RedactText, AllWellBehaved;
    assert "" + token == token;
    var carry := RedactText(rules, token);
    assert RedactStreamChunk(rules, token, "") == ("", carry);
    assert [token][1..] == [];
    var (safe, left) := RedactStreamChunk(rules, token, "");
    hide RedactStreamChunk;
    assert StreamText(rules, [token], "", "") == StreamText(rules, [], "" + safe, left);
  }

  lemma {:induction false} IsShape(k: CharClass)
    requires forall c :: '0' <= c <= '9' ==> k.digit(c)
    ensures SsnShape(k, "123-45-6789", 0)
  {
  }

  /** Without that condition streaming may replace more: a token that ends where a longer number
      goes on. */
  lemma {:induction false} StreamedDiffersFromWhole(k: CharClass)
    requires RegexClasses(k) && forall c :: '0' <= c <= '9' ==> k.digit(c)
    ensures AllWellBehaved([SsnRule(k)])
    ensures StreamedText([SsnRule(k)], ["123-45-6789"], "0") == "[REDACTED:SSN]0"
    ensures RedactText([SsnRule(k)], "123-45-6789" + "0") == "123-45-67890"
  {
    hide RedactText, SsnRule, SsnShape, StreamedText, AllWellBehaved;
    var head := "123-45-6789";
    IsShape(k);
    SsnAlone(k, head);
    assert k.digit('0') && k.word('0') && (head + "0")[11] == '0' && (head + "0")[4] == '4';
    LongerNumberStays(k, head + "0");
    assert Placeholder("SSN") + "0" == "[REDACTED:SSN]0";
    NoDashNoSsn(k, "[REDACTED:SSN]0");
    OneToken([SsnRule(k)], head, "0");
  }

  // ---- another rule that takes part of an SSN ----

  lemma {:induction false} NoSsnFound(k: CharClass, s: string)
    requires RegexClasses(k) && forall p: nat :: !SsnAt(k, s, p)
    ensures FindSsn(k, s, 0) == []
  {
    hide SsnAt, FindSsn;
    if FindSsn(k, s, 0) != [] {
      FindSsnExact(k, s, 0, FindSsn(k, s, 0)[0]);
    }
  }

  lemma {:induction false} TwoRules(k: CharClass, rule: Rule, t: string)
    requires WellBehaved(SsnRule(k)) && WellBehaved(rule)
    ensures AllWellBehaved([SsnRule(k), rule])
    ensures RedactText([SsnRule(k), rule], t) == ApplyRule(rule, ApplyRule(SsnRule(k), t))
  {
    hide ApplyRule, SsnRule, WellBehaved;
    var rules := [SsnRule(k), rule];
    assert rules[1..] == [rule] && [rule][1..] == [];
    OneRule(rule, ApplyRule(SsnRule(k), t));
  }

  lemma {:induction false} OneRule(rule: Rule, t: string)
    requires WellBehaved(rule)
    ensures AllWellBehaved([rule]) && RedactText([rule], t) == ApplyRule(rule, t)
  {
    hide ApplyRule, WellBehaved;
    assert [rule][1..] == [];
  }

  lemma {:induction false} NothingApplied(rule: Rule, t: string)
    requires WellBehaved(rule) && rule.find(t) == []
    ensures ApplyRule(rule, t) == t
  {
  }

  lemma {:induction false} OneApplied(rule: Rule, t: string, span: Span)
    requires WellBehaved(rule) && rule.find(t) == [span] && rule.accept(t, span) && span.start < span.end <= |t|
    ensures ApplyRule(rule, t) == t[..span.start] + Placeholder(rule.kind) + t[span.end..]
  {
    hide Placeholder;
    assert [span][1..] == [];
    assert Accepted(rule, t, [span]) == [span] + Accepted(rule, t, []);
    assert Hits(rule, t) == [span];
    assert SpliceAll(t, span.end, [], Placeholder(rule.kind)) == t;
  }

  lemma {:induction false} NoSsn(k: CharClass, s: string)
    requires RegexClasses(k) && WellBehaved(SsnRule(k)) && forall p: nat :: !SsnAt(k, s, p)
    ensures ApplyRule(SsnRule(k), s) == s
  {
    NoSsnFound(k, s);
    NothingApplied(SsnRule(k), s);
  }

  lemma {:induction false} OneSpan(spans: seq<Span>, n: nat, span: Span)
    requires Ordered(spans, 0, n) && span in spans && forall other :: other in spans ==> other == span
    ensures spans == [span]
  {
    assert spans[0] in spans;
    if spans[1..] != [] {
      OrderedRest(spans, 0, n, spans[1..][0]);
    }
    assert spans == [spans[0]] + spans[1..];
  }

  /** An SSN at the end of a text, with room for none before it. */
  lemma {:induction false} OneSsn(k: CharClass, s: string, p: nat)
    requires RegexClasses(k) && WellBehaved(SsnRule(k)) && SsnAt(k, s, p)
    requires p < SSN_LENGTH && |s| == p + SSN_LENGTH
    ensures ApplyRule(SsnRule(k), s) == s[..p] + Placeholder("SSN")
  {
    var span := Span(p, p + SSN_LENGTH);
    FindSsnOrdered(k, s, 0);
    forall other: Span ensures other in FindSsn(k, s, 0) <==> other == span {
      FindSsnExact(k, s, 0, other);
      if other.start < p && SsnAt(k, s, other.start) {
        SsnsDisjoint(k, s, other.start, p);
      }
    }
    hide SsnAt, FindSsn, ApplyRule, Placeholder;
    OneSpan(FindSsn(k, s, 0), |s|, span);
    OneApplied(SsnRule(k), s, span);
    assert s[span.end..] == "";
  }

  lemma {:induction false} DashedShape(k: CharClass, s: string, p: nat)
    requires SsnShape(k, s, p)
    ensures p + SSN_LENGTH <= |s| && s[p + 3] == '-' && s[p + 6] == '-' && k.digit(s[p + 2])
  {
    assert SsnChar(k, 2, s[p + 2]) && SsnChar(k, 3, s[p + 3]) && SsnChar(k, 6, s[p + 6]);
  }

  const ADDRESS := "x.y@1.123"
  const REST := "-45-6789"
  const ADDRESS_GONE := "[REDACTED:EMAIL]"
  const SSN_GONE := "x.y@1.[REDACTED:SSN]"

  lemma {:induction false} NoneLeft(k: CharClass, p: nat)
    requires RegexClasses(k)
    ensures !SsnAt(k, ADDRESS, p) && !SsnAt(k, ADDRESS_GONE + REST, p)
  {
    var s := ADDRESS_GONE + REST;
    assert s[15] == ']' && forall q :: 0 <= q < |s| && s[q] == '-' ==> q == 16 || q == 19;
    if SsnAt(k, s, p) {
      hide SsnShape;
      DashedShape(k, s, p);
    }
  }

  lemma {:induction false} EndsInSsn(k: CharClass)
    requires (forall c :: '0' <= c <= '9' ==> k.digit(c)) && !k.word('.')
    ensures SsnAt(k, ADDRESS + REST, 6)
  {
    assert (ADDRESS + REST)[5] == '.';
    assert SsnShape(k, ADDRESS + REST, 6);
  }

  /** A rule that takes the address, of which the first three digits of an SSN are a part. */
  ghost predicate TakesAddress(rule: Rule) {
    && rule.kind == "EMAIL" && rule.find(ADDRESS) == [Span(0, 9)] && rule.accept(ADDRESS, Span(0, 9))
    && rule.find(ADDRESS_GONE + REST) == [] && rule.find(SSN_GONE) == []
  }

  lemma {:induction false} AddressGoes(k: CharClass, email: Rule)
    requires RegexClasses(k) && WellBehaved(SsnRule(k)) && WellBehaved(email) && TakesAddress(email)
    ensures AllWellBehaved([SsnRule(k), email])
    ensures RedactText([SsnRule(k), email], ADDRESS) == ADDRESS_GONE
    ensures RedactText([SsnRule(k), email], ADDRESS_GONE + REST) == ADDRESS_GONE + REST
  {
    hide RegexClasses, SsnAt, SsnRule, WellBehaved, ApplyRule, RedactText, AllWellBehaved;
    forall p: nat ensures !SsnAt(k, ADDRESS, p) && !SsnAt(k, ADDRESS_GONE + REST, p) {
      NoneLeft(k, p);
    }
    TwoRules(k, email, ADDRESS);
    TwoRules(k, email, ADDRESS_GONE + REST);
    NoSsn(k, ADDRESS);
    NoSsn(k, ADDRESS_GONE + REST);
    OneApplied(email, ADDRESS, Span(0, 9));
    NothingApplied(email, ADDRESS_GONE + REST);
    assert ADDRESS[..0] + Placeholder("EMAIL") + ADDRESS[9..] == ADDRESS_GONE;
  }

  lemma {:induction false} SsnGoes(k: CharClass, email: Rule)
    requires RegexClasses(k) && WellBehaved(SsnRule(k)) && WellBehaved(email) && TakesAddress(email)
    requires SsnAt(k, ADDRESS + REST, 6)
    ensures AllWellBehaved([SsnRule(k), email])
    ensures RedactText([SsnRule(k), email], ADDRESS + REST) == SSN_GONE
  {
    hide RegexClasses, SsnAt, SsnRule, WellBehaved, ApplyRule, RedactText, AllWellBehaved;
    TwoRules(k, email, ADDRESS + REST);
    OneSsn(k, ADDRESS + REST, 6);
    assert (ADDRESS + REST)[..6] + Placeholder("SSN") == SSN_GONE;
    NothingApplied(email, SSN_GONE);
  }

  /** An address that ends in the first digits of an SSN and arrives before its other digits is taken
      by the next rule; the rest of the SSN is then shown. Scanned at once, the SSN is replaced. */
  lemma {:induction false} AddressTakesSsn(k: CharClass, email: Rule)
    requires RegexClasses(k) && WellBehaved(email) && TakesAddress(email)
    requires (forall c :: '0' <= c <= '9' ==> k.digit(c)) && !k.word('.')
    ensures AllWellBehaved([SsnRule(k), email]) && SsnAt(k, ADDRESS + REST, 6)
    ensures StreamedText([SsnRule(k), email], [ADDRESS], REST) == ADDRESS_GONE + REST
    ensures RedactText([SsnRule(k), email], ADDRESS + REST) == SSN_GONE
  {
    EndsInSsn(k);
    SsnRuleWellBehaved(k);
    hide RegexClasses, SsnAt, SsnRule, WellBehaved, RedactText, AllWellBehaved, TakesAddress, StreamedText;
    AddressGoes(k, email);
    SsnGoes(k, email);
    OneToken([SsnRule(k), email], ADDRESS, REST);
  }
}
