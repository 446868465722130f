/** When streaming shows what scanning the whole text at once shows, told from the text and its token
    boundaries alone. Two kinds of boundary let the stream replace too much: one right behind a
    stretch of SSN shape that is only the beginning of a longer number, and one at which the carry
    begins right at a stretch of SSN shape, so that the word character before it has been sent and is
    no longer seen. Streaming and scanning at once agree exactly if no boundary is of these kinds.
    The proof follows a text in which the SSNs, and only they, are replaced as far as it has been
    read; every scan keeps to it or removes a character that no SSN covers. */
module SsnStreamExact {
  import opened Redaction
  import opened SsnStream
  import opened SsnStreamText

  /** The text from `from` up to n, with a placeholder for every SSN of s that ends at `read` or before. */
  function Replaced(k: CharClass, s: string, from: nat, read: nat, n: nat): seq<Item>
    requires read <= n <= |s|
    decreases n - from
  {
    if from >= n then []
    else if from + SSN_LENGTH <= read && SsnAt(k, s, from) then
      Marks(Placeholder("SSN")) + Replaced(k, s, from + SSN_LENGTH, read, n)
    else [Item(s[from], At(from))] + Replaced(k, s, from + 1, read, n)
  }

  /** x lies in an SSN of s that ends at n or before. */
  ghost predicate InSsn(k: CharClass, s: string, x: nat, n: nat) {
    exists i: nat :: SsnAt(k, s, i) && i <= x < i + SSN_LENGTH <= n
  }

  /** A boundary at n stands right behind a stretch of SSN shape at p, but p is no SSN: the number goes on. */
  ghost predicate GoesOn(k: CharClass, s: string, p: nat, n: nat) {
    && SsnShape(k, s, p) && n == p + SSN_LENGTH < |s|
    && (p == 0 || !k.word(s[p - 1])) && k.word(s[n])
  }

  /** At a boundary at n the carry begins with a stretch of SSN shape at p that is no SSN only for the
      word character before it. */
  ghost predicate Bared(k: CharClass, s: string, p: nat, n: nat) {
    && SsnShape(k, s, p) && 0 < p && k.word(s[p - 1])
    && p + SSN_LENGTH < |s| && !k.word(s[p + SSN_LENGTH]) && !InSsn(k, s, p, |s|)
    && n <= |s| && |Replaced(k, s, p, n, n)| == CARRY_SIZE
  }

  /** A boundary at n of one of the two kinds. */
  ghost predicate Exposes(k: CharClass, s: string, p: nat, n: nat) {
    GoesOn(k, s, p, n) || Bared(k, s, p, n)
  }

  ghost predicate NoneExposed(k: CharClass, s: string, read: nat, n: nat) {
    forall p: nat :: !Bared(k, s, p, read) && !GoesOn(k, s, p, n)
  }

  // ---- the text with its SSNs replaced ----

  lemma {:induction false} RebuildStep<T>(source: seq<T>, from: nat, spans: seq<Span>, marks: seq<T>)
    requires Ordered(spans, from + 1, |source|)
    ensures Ordered(spans, from, |source|)
    ensures Rebuild(source, from, spans, marks) == [source[from]] + Rebuild(source, from + 1, spans, marks)
  {
    OrderedFromLower(spans, from + 1, from, |source|);
    if spans == [] {
      assert source[from..] == [source[from]] + source[from + 1..];
    } else {
      var span := spans[0];
      assert spans == [span] + spans[1..];
      RebuildCons(source, from, span, spans[1..], marks);
      RebuildCons(source, from + 1, span, spans[1..], marks);
      hide Rebuild, Ordered;
      assert source[from..span.start] == [source[from]] + source[from + 1..span.start];
    }
  }

  /** spans are the SSNs of s between `from` and n. */
  ghost predicate AreSsns(k: CharClass, s: string, from: nat, n: nat, spans: seq<Span>) {
    forall span :: span in spans
                   <==> from <= span.start && span.end == span.start + SSN_LENGTH <= n && SsnAt(k, s, span.start)
  }

  lemma {:induction false} FirstSsn(k: CharClass, s: string, from: nat, n: nat, spans: seq<Span>)
    requires RegexClasses(k) && Ordered(spans, from, n) && AreSsns(k, s, from, n, spans)
    requires from + SSN_LENGTH <= n && SsnAt(k, s, from)
    ensures spans != [] && spans[0] == Span(from, from + SSN_LENGTH)
    ensures AreSsns(k, s, from + SSN_LENGTH, n, spans[1..])
  {
    var first := Span(from, from + SSN_LENGTH);
    assert first in spans;
    OrderedFirst(spans, from, n, first);
    forall span: Span
      ensures span in spans[1..]
              <==> first.end <= span.start && span.end == span.start + SSN_LENGTH <= n && SsnAt(k, s, span.start)
    {
      OrderedRest(spans, from, n, span);
      if span in spans && span != first {
        OrderedStarts(spans[1..], first.end, n, span);
      }
    }
  }

  lemma {:induction false} NoFirstSsn(k: CharClass, s: string, from: nat, n: nat, spans: seq<Span>)
    requires from < n && Ordered(spans, from, n) && AreSsns(k, s, from, n, spans)
    requires !(from + SSN_LENGTH <= n && SsnAt(k, s, from))
    ensures Ordered(spans, from + 1, n) && AreSsns(k, s, from + 1, n, spans)
  {
    hide SsnAt;
    if spans != [] {
      assert spans[0] in spans;
      OrderedFromFirst(spans, from, from + 1, n);
    }
  }

  /** Rebuilding with exactly the SSNs gives the text with its SSNs replaced. */
  lemma {:induction false} RebuildIsReplaced(k: CharClass, s: string, from: nat, n: nat, spans: seq<Span>)
    requires RegexClasses(k) && from <= n <= |s| && Ordered(spans, from, n) && AreSsns(k, s, from, n, spans)
    ensures Rebuild(Tokens(s[..n], 0), from, spans, Marks(Placeholder("SSN"))) == Replaced(k, s, from, n, n)
    decreases n - from
  {
    hide RegexClasses, SsnAt, AreSsns, Placeholder;
    var source, marks := Tokens(s[..n], 0), Marks(Placeholder("SSN"));
    if from == n {
      assert spans == [];
    } else if from + SSN_LENGTH <= n && SsnAt(k, s, from) {
      FirstSsn(k, s, from, n, spans);
      RebuildIsReplaced(k, s, from + SSN_LENGTH, n, spans[1..]);
      assert source[from..from] == [];
    } else {
      NoFirstSsn(k, s, from, n, spans);
      RebuildIsReplaced(k, s, from + 1, n, spans);
      RebuildStep(source, from, spans, marks);
      assert source[from] == Item(s[from], At(from));
    }
  }

  /** What has not been scanned follows unchanged. */
  lemma {:induction false} ReplacedMore(k: CharClass, s: string, from: nat, read: nat, n: nat)
    requires read <= n <= |s| && from <= read
    ensures Replaced(k, s, from, read, read) + Tokens(s[read..n], read) == Replaced(k, s, from, read, n)
    decreases read - from
  {
    hide SsnAt, Placeholder;
    if from == read {
      ReplacedPlain(k, s, from, read, n);
    } else if from + SSN_LENGTH <= read && SsnAt(k, s, from) {
      ReplacedMore(k, s, from + SSN_LENGTH, read, n);
    } else {
      ReplacedMore(k, s, from + 1, read, n);
    }
  }

  lemma {:induction false} ReplacedPlain(k: CharClass, s: string, from: nat, read: nat, n: nat)
    requires read <= n <= |s| && from <= n && read < from + SSN_LENGTH
    ensures Replaced(k, s, from, read, n) == Tokens(s[from..n], from)
    decreases n - from
  {
    hide SsnAt, Placeholder;
    if from < n {
      ReplacedPlain(k, s, from + 1, read, n);
      assert Tokens(s[from..n], from) == [Item(s[from], At(from))] + Tokens(s[from + 1..n], from + 1);
    }
  }

  /** A placeholder is longer than an SSN, so replacing more makes the text no shorter. */
  lemma {:induction false} ReplacedLonger(k: CharClass, s: string, from: nat, read: nat, n: nat)
    requires read <= n <= |s| && from <= n
    ensures |Replaced(k, s, from, read, n)| <= |Replaced(k, s, from, n, n)|
    ensures n - from <= |Replaced(k, s, from, n, n)|
    decreases n - from
  {
    hide SsnAt;
    if from < n {
      if from + SSN_LENGTH <= n && SsnAt(k, s, from) {
        ReplacedLonger(k, s, from + SSN_LENGTH, read, n);
        if read < from + SSN_LENGTH {
          ReplacedPlain(k, s, from, read, n);
        }
      } else {
        ReplacedLonger(k, s, from + 1, read, n);
      }
    }
  }

  lemma {:induction false} PlaceholderLonger()
    ensures |Placeholder("SSN")| > SSN_LENGTH
  {
  }

  lemma {:induction false} BehindMarks(mark: string, rest: seq<Item>, w: nat)
    requires w < |Marks(mark) + rest|
    ensures w < |mark| ==> (Marks(mark) + rest)[w].src.Made?
  {
    assert w < |mark| ==> (Marks(mark) + rest)[w] == Marks(mark)[w];
  }

  lemma {:induction false} BehindFront<T>(front: seq<T>, rest: seq<T>, w: nat)
    requires |front| <= w < |front + rest|
    ensures (front + rest)[w] == rest[w - |front|] && (front + rest)[w..] == rest[w - |front|..]
    ensures |front| < w ==> (front + rest)[w - 1] == rest[w - |front| - 1]
  {
  }

  /** A character of the source in the replaced text: nothing is replaced at it, the text goes on
      behind it as from it, and before it stands its neighbour unless an SSN ends there. */
  lemma {:induction false} ReplacedAt(k: CharClass, s: string, from: nat, read: nat, n: nat, w: nat)
    requires read <= n <= |s| && w < |Replaced(k, s, from, read, n)| && Replaced(k, s, from, read, n)[w].src.At?
    ensures var r := Replaced(k, s, from, read, n);
            var j := r[w].src.index;
            && from <= j < n && r[w] == Item(s[j], At(j)) && r[w..] == Replaced(k, s, j, read, n)
            && !(j + SSN_LENGTH <= read && SsnAt(k, s, j))
            && (if w == 0 then j == from
                else (j > 0 && r[w - 1] == Item(s[j - 1], At(j - 1)))
                     || (j >= SSN_LENGTH && SsnAt(k, s, j - SSN_LENGTH)))
    decreases n - from
  {
    hide SsnAt, Placeholder;
    var r := Replaced(k, s, from, read, n);
    if from + SSN_LENGTH <= read && SsnAt(k, s, from) {
      var marks := Marks(Placeholder("SSN"));
      var rest := Replaced(k, s, from + SSN_LENGTH, read, n);
      assert r == marks + rest;
      hide Replaced;
      PlaceholderLonger();
      BehindMarks(Placeholder("SSN"), rest, w);
      BehindFront(marks, rest, w);
      ReplacedAt(k, s, from + SSN_LENGTH, read, n, w - |marks|);
    } else {
      var first := [Item(s[from], At(from))];
      var rest := Replaced(k, s, from + 1, read, n);
      assert r == first + rest;
      if w > 0 {
        hide Replaced;
        BehindFront(first, rest, w);
        ReplacedAt(k, s, from + 1, read, n, w - 1);
      } else {
        assert r[0..] == r;
      }
    }
  }

  lemma {:induction false} ReplacedFrom(k: CharClass, s: string, from: nat, read: nat, n: nat, x: nat)
    requires read <= n <= |s| && x in Sources(Replaced(k, s, from, read, n))
    ensures from <= x < n
  {
    var r := Replaced(k, s, from, read, n);
    var w :| 0 <= w < |r| && r[w].src == At(x);
    ReplacedAt(k, s, from, read, n, w);
  }

  lemma {:induction false} ReplacedSources(k: CharClass, s: string, from: nat, read: nat, n: nat)
    requires read <= n <= |s| && from < n
    ensures Sources(Replaced(k, s, from, read, n))
            == if from + SSN_LENGTH <= read && SsnAt(k, s, from) then
                 Sources(Replaced(k, s, from + SSN_LENGTH, read, n))
               else {from} + Sources(Replaced(k, s, from + 1, read, n))
  {
    hide SsnAt, Placeholder;
    if from + SSN_LENGTH <= read && SsnAt(k, s, from) {
      SourcesOfConcat(Marks(Placeholder("SSN")), Replaced(k, s, from + SSN_LENGTH, read, n));
      assert Sources(Marks(Placeholder("SSN"))) == {};
    } else {
      var first := [Item(s[from], At(from))];
      SourcesOfConcat(first, Replaced(k, s, from + 1, read, n));
      assert first[0].src == At(from);
      assert Sources(first) == {from};
    }
  }

  /** A character is missing only if an SSN that has been replaced covers it. */
  lemma {:induction false} MissingInSsn(k: CharClass, s: string, from: nat, read: nat, n: nat, x: nat)
    requires read <= n <= |s| && from <= x < n && x !in Sources(Replaced(k, s, from, read, n))
    ensures InSsn(k, s, x, read)
    decreases n - from
  {
    hide Replaced, SsnAt;
    ReplacedSources(k, s, from, read, n);
    if from + SSN_LENGTH <= read && SsnAt(k, s, from) {
      if x >= from + SSN_LENGTH {
        MissingInSsn(k, s, from + SSN_LENGTH, read, n, x);
      }
    } else {
      MissingInSsn(k, s, from + 1, read, n, x);
    }
  }

  /** And it is missing if one covers it. */
  lemma {:induction false} InSsnMissing(k: CharClass, s: string, from: nat, read: nat, n: nat, x: nat, i: nat)
    requires RegexClasses(k) && read <= n <= |s| && SsnAt(k, s, i) && from <= i <= x < i + SSN_LENGTH <= read
    ensures x !in Sources(Replaced(k, s, from, read, n))
    decreases n - from
  {
    hide RegexClasses, Replaced, SsnAt;
    ReplacedSources(k, s, from, read, n);
    if from + SSN_LENGTH <= read && SsnAt(k, s, from) {
      if i == from {
        if x in Sources(Replaced(k, s, from + SSN_LENGTH, read, n)) {
          ReplacedFrom(k, s, from + SSN_LENGTH, read, n, x);
        }
      } else {
        SsnsDisjoint(k, s, from, i);
        InSsnMissing(k, s, from + SSN_LENGTH, read, n, x, i);
      }
    } else {
      InSsnMissing(k, s, from + 1, read, n, x, i);
    }
  }

  // ---- the stream while it has replaced nothing but SSNs ----

  /** Between scans, if exactly the SSNs received so far have been replaced. */
  ghost predicate Exact(k: CharClass, s: string, st: StreamState) {
    && st.read <= |s|
    && st.shown + st.carry == Replaced(k, s, 0, st.read, st.read)
    && |st.carry| <= CARRY_SIZE && (st.shown == [] || |st.carry| == CARRY_SIZE)
  }

  /** What the next scan sees, behind what has been shown. */
  lemma {:induction false} ExactCombined(k: CharClass, s: string, st: StreamState, token: string)
    requires Exact(k, s, st) && st.read + |token| <= |s| && s[st.read..st.read + |token|] == token
    ensures st.shown + (st.carry + Tokens(token, st.read)) == Replaced(k, s, 0, st.read, st.read + |token|)
  {
    ReplacedMore(k, s, 0, st.read, st.read + |token|);
    hide Replaced;
    assert st.shown + (st.carry + Tokens(token, st.read)) == (st.shown + st.carry) + Tokens(token, st.read);
  }

  /** Behind a digit no SSN starts. */
  lemma {:induction false} NoSsnBehindDigit(k: CharClass, s: string, i: nat)
    requires RegexClasses(k) && 0 < i <= |s| && k.digit(s[i - 1])
    ensures !SsnAt(k, s, i)
  {
  }

  /** No SSN ends where a digit follows. */
  lemma {:induction false} NoSsnBeforeDigit(k: CharClass, s: string, i: nat)
    requires RegexClasses(k) && i < |s| && k.digit(s[i])
    ensures i >= SSN_LENGTH ==> !SsnAt(k, s, i - SSN_LENGTH)
  {
  }

  lemma {:induction false} ShapeEnds(k: CharClass, s: string, j: nat)
    requires SsnShape(k, s, j)
    ensures k.digit(s[j]) && k.digit(s[j + 10]) && s[j + 6] == '-' && k.digit(s[j + 2])
  {
    assert SsnChar(k, 0, s[j]) && SsnChar(k, 2, s[j + 2]) && SsnChar(k, 6, s[j + 6]) && SsnChar(k, 10, s[j + 10]);
  }

  /** Behind a held shape stands the next character of the source, or the text ends. */
  lemma {:induction false} BehindShape(k: CharClass, s: string, read: nat, n: nat, w: nat, j: nat)
    requires RegexClasses(k) && read <= n <= |s| && Holds(Replaced(k, s, 0, read, n), w, j, SSN_LENGTH)
    requires SsnShape(k, s, j)
    ensures var r := Replaced(k, s, 0, read, n);
            if w + SSN_LENGTH == |r| then n == j + SSN_LENGTH
            else j + SSN_LENGTH < n && r[w + SSN_LENGTH] == Item(s[j + SSN_LENGTH], At(j + SSN_LENGTH))
  {
    var r := Replaced(k, s, 0, read, n);
    var last := j + SSN_LENGTH - 1;
    assert r[w + SSN_LENGTH - 1].src == At(last);
    ReplacedAt(k, s, 0, read, n, w + SSN_LENGTH - 1);
    ShapeEnds(k, s, j);
    NoSsnBehindDigit(k, s, last + 1);
    assert Replaced(k, s, last, read, n) == [Item(s[last], At(last))] + Replaced(k, s, last + 1, read, n);
    BehindLast(r, w + SSN_LENGTH - 1, Item(s[last], At(last)), Replaced(k, s, last + 1, read, n));
  }

  lemma {:induction false} BehindLast<T>(r: seq<T>, w: nat, item: T, rest: seq<T>)
    requires w < |r| && r[w..] == [item] + rest
    ensures |r| == w + 1 + |rest|
    ensures w + 1 < |r| ==> r[w + 1] == rest[0]
  {
    assert w + 1 < |r| ==> r[w + 1] == r[w..][1];
  }

  /** Before a held shape stands the character of the source before it, unless the text begins. */
  lemma {:induction false} BeforeShape(k: CharClass, s: string, read: nat, n: nat, w: nat, j: nat)
    requires RegexClasses(k) && read <= n <= |s| && Holds(Replaced(k, s, 0, read, n), w, j, SSN_LENGTH)
    requires SsnShape(k, s, j)
    ensures var r := Replaced(k, s, 0, read, n);
            if w == 0 then j == 0 else j > 0 && r[w - 1] == Item(s[j - 1], At(j - 1))
  {
    ReplacedAt(k, s, 0, read, n, w);
    ShapeEnds(k, s, j);
    NoSsnBeforeDigit(k, s, j);
  }

  /** What stands around a shape in the next window stands around it in the source. */
  lemma {:induction false} AroundShape(k: CharClass, s: string, st: StreamState, token: string, w: nat, j: nat)
    requires RegexClasses(k) && Exact(k, s, st)
    requires st.read + |token| <= |s| && s[st.read..st.read + |token|] == token
    requires Holds(st.carry + Tokens(token, st.read), w, j, SSN_LENGTH) && SsnShape(k, s, j)
    ensures var items := st.carry + Tokens(token, st.read);
            && (w + SSN_LENGTH == |items| ==> j + SSN_LENGTH == st.read + |token|)
            && (w + SSN_LENGTH < |items| ==> j + SSN_LENGTH < |s| && items[w + SSN_LENGTH].c == s[j + SSN_LENGTH])
            && (w > 0 ==> j > 0 && items[w - 1].c == s[j - 1])
            && (st.shown == [] && w == 0 ==> j == 0)
            && (st.shown != [] ==> j > 0)
  {
    hide SsnShape, RegexClasses, Replaced, Holds;
    var n := st.read + |token|;
    var items := st.carry + Tokens(token, st.read);
    var all := Replaced(k, s, 0, st.read, n);
    var v := |st.shown| + w;
    ExactCombined(k, s, st, token);
    HoldsBelow(st.shown, items, w, j, SSN_LENGTH);
    BeforeShape(k, s, st.read, n, v, j);
    BehindShape(k, s, st.read, n, v, j);
    assert w > 0 ==> all[v - 1] == items[w - 1];
    assert v + SSN_LENGTH < |all| ==> all[v + SSN_LENGTH] == items[w + SSN_LENGTH];
    HoldsInside(items, w, j, SSN_LENGTH);
  }

  lemma {:induction false} HoldsInside(items: seq<Item>, w: nat, j: nat, len: nat)
    requires Holds(items, w, j, len)
    ensures w + len <= |items|
  {
  }

  /** A match of the rule is an SSN, a number that goes on behind the boundary, or a shape with
      which the carry begins. */
  lemma {:induction false} MatchIsSsn(k: CharClass, s: string, st: StreamState, token: string, w: nat)
    requires RegexClasses(k) && Exact(k, s, st) && Tracks(k, s, st.read, st.carry)
    requires st.read + |token| <= |s| && s[st.read..st.read + |token|] == token
    requires SsnAt(k, Text(st.carry + Tokens(token, st.read)), w)
    ensures var items := st.carry + Tokens(token, st.read);
            && items[w].src.At?
            && var j := items[w].src.index;
               && Holds(items, w, j, SSN_LENGTH) && j + SSN_LENGTH <= st.read + |token|
               && (SsnAt(k, s, j) || GoesOn(k, s, j, st.read + |token|) || Bared(k, s, j, st.read))
  {
    hide RegexClasses, Tracks, SsnShape, SsnAt, Exact, Holds, Bared, GoesOn;
    var n := st.read + |token|;
    var items := st.carry + Tokens(token, st.read);
    CombinedTracks(k, s, st.read, st.carry, token);
    MatchStands(k, items, w);
    MatchIsSourceShape(k, s, n, items, w);
    var j := items[w].src.index;
    HeldWindow(k, s, n, items, w, j);
    AroundShape(k, s, st, token, w, j);
    if w == 0 && st.shown != [] && k.word(s[j - 1]) {
      ExactCarry(k, s, st);
      assert items[..|st.carry|] == st.carry;
      HoldsInPrefix(items, st.carry, |st.carry|, 0, j, SSN_LENGTH);
      CarryBared(k, s, st, j);
    } else {
      ShapeKinds(k, s, j, n);
    }
  }

  lemma {:induction false} MatchStands(k: CharClass, items: seq<Item>, w: nat)
    requires SsnAt(k, Text(items), w)
    ensures SsnShape(k, Text(items), w) && w + SSN_LENGTH <= |items|
    ensures w > 0 ==> !k.word(items[w - 1].c)
    ensures w + SSN_LENGTH < |items| ==> !k.word(items[w + SSN_LENGTH].c)
  {
  }

  lemma {:induction false} ExactCarry(k: CharClass, s: string, st: StreamState)
    requires Exact(k, s, st) && st.shown != []
    ensures |st.carry| == CARRY_SIZE
  {
  }

  lemma {:induction false} ShapeKinds(k: CharClass, s: string, j: nat, n: nat)
    requires SsnShape(k, s, j) && (j == 0 || !k.word(s[j - 1])) && j + SSN_LENGTH <= n <= |s|
    requires j + SSN_LENGTH < n ==> !k.word(s[j + SSN_LENGTH])
    ensures SsnAt(k, s, j) || GoesOn(k, s, j, n)
  {
  }

  lemma {:induction false} HoldsBelow(shown: seq<Item>, items: seq<Item>, w: nat, j: nat, len: nat)
    requires Holds(items, w, j, len)
    ensures Holds(shown + items, |shown| + w, j, len)
  {
    forall q | |shown| + w <= q < |shown| + w + len ensures (shown + items)[q].src == At(j + q - (|shown| + w)) {
      assert (shown + items)[q] == items[q - |shown|];
    }
  }

  lemma {:induction false} CarryBared(k: CharClass, s: string, st: StreamState, j: nat)
    requires RegexClasses(k) && Exact(k, s, st) && Tracks(k, s, st.read, st.carry) && st.shown != []
    requires Holds(st.carry, 0, j, SSN_LENGTH)
    requires SsnShape(k, s, j) && 0 < j && k.word(s[j - 1])
    requires j + SSN_LENGTH < |s| && !k.word(s[j + SSN_LENGTH])
    ensures Bared(k, s, j, st.read)
  {
    var all := st.shown + st.carry;
    var v := |st.shown|;
    assert all[v] == st.carry[0] && all[v..] == st.carry;
    assert st.carry[SSN_LENGTH - 1].src == At(j + SSN_LENGTH - 1);
    assert Copy(k, s, st.read, st.carry[SSN_LENGTH - 1]);
    SourceOf(all, v);
    hide Tracks, SsnShape;
    ReplacedAt(k, s, 0, st.read, st.read, v);
    hide Replaced;
    forall i: nat | SsnAt(k, s, i) ensures !(i <= j < i + SSN_LENGTH) {
      if i <= j < i + SSN_LENGTH {
        InSsnMissing(k, s, 0, st.read, st.read, j, i);
      }
    }
  }

  // ---- one scan of an exact state ----

  lemma {:induction false} SpannedIsMissing(source: seq<Item>, from: nat, spans: seq<Span>, marks: seq<Item>,
                                            span: Span)
    requires Numbered(source) && AllMade(marks) && Ordered(spans, from, |source|) && span in spans
    ensures span.start !in Sources(Rebuild(source, from, spans, marks))
    decreases spans
  {
    var gap := source[from..spans[0].start];
    var rest := Rebuild(source, spans[0].end, spans[1..], marks);
    SourcesOfConcat(gap + marks, rest);
    SourcesOfConcat(gap, marks);
    OrderedFirst(spans, from, |source|, span);
    if span == spans[0] {
      if span.start in Sources(rest) {
        RebuildSources(source, spans[0].end, spans[1..], marks, span.start);
      }
    } else {
      SpannedIsMissing(source, spans[0].end, spans[1..], marks, span);
    }
  }

  lemma {:induction false} RebuildSources(source: seq<Item>, from: nat, spans: seq<Span>, marks: seq<Item>, x: nat)
    requires Numbered(source) && AllMade(marks) && Ordered(spans, from, |source|)
    requires x in Sources(Rebuild(source, from, spans, marks))
    ensures from <= x
    decreases spans
  {
    if spans != [] {
      var gap := source[from..spans[0].start];
      var rest := Rebuild(source, spans[0].end, spans[1..], marks);
      SourcesOfConcat(gap + marks, rest);
      SourcesOfConcat(gap, marks);
      if x in Sources(rest) {
        RebuildSources(source, spans[0].end, spans[1..], marks, x);
      }
    }
  }

  lemma {:induction false} SpansMeet(spans: seq<Span>, from: nat, n: nat, a: Span, b: Span, x: nat)
    requires Ordered(spans, from, n) && a in spans && b in spans
    requires a.start <= x < a.end && b.start <= x < b.end
    ensures a == b
  {
    OrderedFirst(spans, from, n, a);
    OrderedFirst(spans, from, n, b);
    if a != spans[0] && b != spans[0] {
      SpansMeet(spans[1..], spans[0].end, n, a, b, x);
    }
  }

  /** If only characters of SSNs are missing, and all of theirs, the spans replaced are the SSNs. */
  lemma {:induction false} SpansAreSsns(k: CharClass, s: string, n: nat, items: seq<Item>, spans: seq<Span>)
    requires RegexClasses(k) && Rebuilt(k, s, n, items, spans)
    requires forall x: nat :: x < n && x !in Sources(items) ==> InSsn(k, s, x, n)
    requires forall i: nat :: SsnAt(k, s, i) && i + SSN_LENGTH <= n ==> Absent(items, i)
    ensures AreSsns(k, s, 0, n, spans)
  {
    hide RegexClasses, Sources, SsnAt, SsnShape, Absent;
    forall i: nat | SsnAt(k, s, i) && i + SSN_LENGTH <= n ensures Span(i, i + SSN_LENGTH) in spans {
      SsnIsSpanned(k, s, n, items, spans, i);
    }
    forall span | span in spans ensures span.end == span.start + SSN_LENGTH <= n && SsnAt(k, s, span.start) {
      assert ShapeSpan(k, s, span);
      OrderedStarts(spans, 0, n, span);
      SpannedIsMissing(Tokens(s[..n], 0), 0, spans, Marks(Placeholder("SSN")), span);
      OrderedEnds(spans, 0, n, span);
      var i: nat :| SsnAt(k, s, i) && i <= span.start < i + SSN_LENGTH <= n;
      SpansMeet(spans, 0, n, span, Span(i, i + SSN_LENGTH), span.start);
    }
    hide Rebuilt, Ordered, Rebuild, InSsn;
    forall span: Span
      ensures span in spans
              <==> 0 <= span.start && span.end == span.start + SSN_LENGTH <= n && SsnAt(k, s, span.start)
    {
      assert span == Span(span.start, span.end);
    }
  }

  lemma {:induction false} OrderedEnds(spans: seq<Span>, from: nat, n: nat, span: Span)
    requires Ordered(spans, from, n) && span in spans
    ensures span.end <= n
  {
    if span != spans[0] {
      OrderedEnds(spans[1..], spans[0].end, n, span);
    }
  }

  /** Unless a boundary is of one of the two kinds, a scan removes only characters of SSNs. */
  lemma {:induction false} RemovedIsSsn(k: CharClass, s: string, st: StreamState, token: string, x: nat)
    requires RegexClasses(k) && WellBehaved(SsnRule(k)) && Exact(k, s, st) && Tracks(k, s, st.read, st.carry)
    requires st.read + |token| <= |s| && s[st.read..st.read + |token|] == token && x < st.read + |token|
    requires NoneExposed(k, s, st.read, st.read + |token|)
    requires x !in Sources(st.shown + ApplyItems(SsnRule(k), st.carry + Tokens(token, st.read)))
    ensures InSsn(k, s, x, st.read + |token|)
  {
    hide RegexClasses, WellBehaved, Exact, Tracks, NoneExposed, ApplyItems, Sources, Hits, SsnRule, Replaced, InSsn;
    SsnFirstAlone(k);
    var n := st.read + |token|;
    var items := st.carry + Tokens(token, st.read);
    var hits := Hits(SsnRule(k), Text(items));
    CombinedTracks(k, s, st.read, st.carry, token);
    ApplyItemsTracks(k, s, n, SsnRule(k), items);
    ExactCombined(k, s, st, token);
    SourcesOfConcat(st.shown, items);
    SourcesOfConcat(st.shown, ApplyItems(SsnRule(k), items));
    if x in Sources(items) {
      var span, q := CoveredBy(items, hits, 0, x);
      HitIsSsn(k, s, st, token, span, q, x);
    } else {
      MissingInSsn(k, s, 0, st.read, n, x);
      InSsnLater(k, s, x, st.read, n);
    }
  }

  lemma {:induction false} InSsnLater(k: CharClass, s: string, x: nat, read: nat, n: nat)
    requires InSsn(k, s, x, read) && read <= n
    ensures InSsn(k, s, x, n)
  {
  }

  lemma {:induction false} HitIsSsn(k: CharClass, s: string, st: StreamState, token: string, span: Span, q: nat, x: nat)
    requires RegexClasses(k) && Exact(k, s, st) && Tracks(k, s, st.read, st.carry)
    requires st.read + |token| <= |s| && s[st.read..st.read + |token|] == token
    requires NoneExposed(k, s, st.read, st.read + |token|)
    requires var items := st.carry + Tokens(token, st.read);
             && span in Hits(SsnRule(k), Text(items)) && span.start <= q < span.end
             && q < |items| && items[q].src == At(x)
    ensures InSsn(k, s, x, st.read + |token|)
  {
    hide RegexClasses, Exact, Tracks, GoesOn, Bared, SsnAt, Hits, SsnRule;
    HitIsMatch(k, Text(st.carry + Tokens(token, st.read)), span);
    MatchIsSsn(k, s, st, token, span.start);
  }

  lemma {:induction false} HitIsMatch(k: CharClass, t: string, span: Span)
    requires RegexClasses(k) && span in Hits(SsnRule(k), t)
    ensures span.end == span.start + SSN_LENGTH && SsnAt(k, t, span.start)
  {
    FindSsnExact(k, t, 0, span);
  }

  lemma {:induction false} SsnsAbsent(k: CharClass, s: string, st: StreamState, i: nat)
    requires StreamInv(k, s, st) && st.taken == {} && SsnAt(k, s, i) && i + SSN_LENGTH <= st.read
    ensures Absent(st.shown + st.carry, i)
  {
    assert Untaken(st, i);
    assert Contained(st, i);
    SourcesOfConcat(st.shown, st.carry);
  }

  /** A scan, or the last flush, of an exact state: unless a boundary is of one of the two kinds,
      exactly the SSNs have been replaced after it. */
  lemma {:induction false} ScanExact(k: CharClass, s: string, st: StreamState, token: string, keep: nat,
                                     more: seq<Span>)
    requires SsnFirst(k, [SsnRule(k)]) && StreamInv(k, s, st) && Exact(k, s, st)
    requires st.read + |token| <= |s| && s[st.read..st.read + |token|] == token
    requires NoneExposed(k, s, st.read, st.read + |token|)
    requires var next := Scan([SsnRule(k)], st, token, keep);
             && StreamInv(k, s, next) && next.taken == {}
             && Rebuilt(k, s, next.read, next.shown + next.carry, more)
    ensures var next := Scan([SsnRule(k)], st, token, keep);
            next.shown + next.carry == Replaced(k, s, 0, next.read, next.read)
  {
    hide RegexClasses, WellBehaved, QuietRules, StreamInv, Exact, NoneExposed, Scan, Rebuilt, SsnAt, SsnRule,
         ApplyItems, Absent, Replaced;
    var next := Scan([SsnRule(k)], st, token, keep);
    var items := next.shown + next.carry;
    SsnFirstAlone(k);
    ScanKeepsText(k, st, token, keep);
    StreamInvTracks(k, s, st);
    forall x: nat | x < next.read && x !in Sources(items) ensures InSsn(k, s, x, next.read) {
      RemovedIsSsn(k, s, st, token, x);
    }
    forall i: nat | SsnAt(k, s, i) && i + SSN_LENGTH <= next.read ensures Absent(items, i) {
      SsnsAbsent(k, s, next, i);
    }
    SpansAreSsns(k, s, next.read, items, more);
    RebuiltIsReplaced(k, s, next.read, items, more);
  }

  lemma {:induction false} RebuiltIsReplaced(k: CharClass, s: string, n: nat, items: seq<Item>, spans: seq<Span>)
    requires RegexClasses(k) && Rebuilt(k, s, n, items, spans) && AreSsns(k, s, 0, n, spans)
    ensures items == Replaced(k, s, 0, n, n)
  {
    hide RegexClasses, AreSsns, Replaced;
    RebuildIsReplaced(k, s, 0, n, spans);
  }

  /** The carry stays full once something has been shown. */
  lemma {:induction false} ScanCarry(k: CharClass, s: string, st: StreamState, token: string)
    requires SsnFirst(k, [SsnRule(k)]) && Exact(k, s, st)
    requires st.read + |token| <= |s| && s[st.read..st.read + |token|] == token
    requires var next := Scan([SsnRule(k)], st, token, CARRY_SIZE);
             next.shown + next.carry == Replaced(k, s, 0, next.read, next.read)
    ensures Exact(k, s, Scan([SsnRule(k)], st, token, CARRY_SIZE))
  {
    hide RegexClasses, WellBehaved, QuietRules, SsnRule, ApplyItems, Replaced;
    var next := Scan([SsnRule(k)], st, token, CARRY_SIZE);
    ExactCombined(k, s, st, token);
    ReplacedLonger(k, s, 0, st.read, st.read + |token|);
    ScanKeepsText(k, st, token, CARRY_SIZE);
    ScanCut(k, st, token);
  }

  lemma {:induction false} ScanCut(k: CharClass, st: StreamState, token: string)
    requires SsnFirst(k, [SsnRule(k)])
    ensures var out := ApplyItems(SsnRule(k), st.carry + Tokens(token, st.read));
            var next := Scan([SsnRule(k)], st, token, CARRY_SIZE);
            && |next.carry| == (if |out| > CARRY_SIZE then CARRY_SIZE else |out|)
            && (|out| <= CARRY_SIZE ==> next.shown == st.shown)
  {
    hide RegexClasses, WellBehaved, QuietRules, SsnRule, ApplyItems;
    var out := ApplyItems(SsnRule(k), st.carry + Tokens(token, st.read));
    assert [SsnRule(k)][1..] == [];
    assert RedactItems([], out) == out;
  }

  // ---- a carry that begins with such a shape ----

  lemma {:induction false} NoSsnStartsInside(k: CharClass, s: string, p: nat, i: nat)
    requires RegexClasses(k) && SsnShape(k, s, p) && p < i <= p + SSN_LENGTH
    ensures !SsnAt(k, s, i)
  {
    if SsnAt(k, s, i) {
      ShapeEnds(k, s, p);
      ShapeEnds(k, s, i);
      if i < p + SSN_LENGTH {
        OnlyItselfCoversStart(k, s, p, i);
      }
    }
  }

  /** Where no SSN starts, the text is copied. */
  lemma {:induction false} ReplacedCopies(k: CharClass, s: string, from: nat, n: nat, len: nat)
    requires from + len <= n <= |s|
    requires forall i: nat :: from <= i < from + len ==> !SsnAt(k, s, i)
    ensures Replaced(k, s, from, n, n) == Tokens(s[from..from + len], from) + Replaced(k, s, from + len, n, n)
    decreases len
  {
    hide SsnAt, Placeholder;
    if len > 0 {
      ReplacedCopies(k, s, from + 1, n, len - 1);
      assert Tokens(s[from..from + len], from) == [Item(s[from], At(from))] + Tokens(s[from + 1..from + len], from + 1);
    }
  }

  /** The carry holds the shape and the character behind it. */
  lemma {:induction false} BaredHeld(k: CharClass, s: string, p: nat, n: nat)
    requires RegexClasses(k) && Bared(k, s, p, n)
    ensures p + SSN_LENGTH < n && |Replaced(k, s, p, n, n)| == CARRY_SIZE
    ensures Holds(Replaced(k, s, p, n, n), 0, p, SSN_LENGTH + 1)
  {
    var len := SSN_LENGTH + 1;
    forall i: nat | p <= i < p + len ensures !SsnAt(k, s, i) {
      if p < i {
        NoSsnStartsInside(k, s, p, i);
      }
    }
    hide SsnAt, SsnShape, RegexClasses;
    ReplacedShort(k, s, p, n);
    ReplacedCopies(k, s, p, n, len);
    assert forall q :: 0 <= q < len ==> Replaced(k, s, p, n, n)[q] == Tokens(s[p..p + len], p)[q];
  }

  lemma {:induction false} ReplacedShort(k: CharClass, s: string, p: nat, n: nat)
    requires n <= |s| && !SsnAt(k, s, p)
    ensures n < p + SSN_LENGTH + 1 ==> |Replaced(k, s, p, n, n)| <= SSN_LENGTH
  {
    hide SsnAt, Placeholder;
    if p < n < p + SSN_LENGTH + 1 {
      ReplacedPlain(k, s, p + 1, n, n);
    }
  }

  lemma {:induction false} PresentUnlessInSsn(k: CharClass, s: string, n: nat, x: nat)
    requires x < n <= |s| && !InSsn(k, s, x, |s|)
    ensures x in Sources(Replaced(k, s, 0, n, n))
  {
    hide InSsn, Replaced, Sources;
    if x !in Sources(Replaced(k, s, 0, n, n)) {
      MissingInSsn(k, s, 0, n, n, x);
      InSsnLater(k, s, x, n, |s|);
    }
  }

  lemma {:induction false} CarryIsBared(k: CharClass, s: string, st: StreamState, p: nat)
    requires RegexClasses(k) && Exact(k, s, st) && Bared(k, s, p, st.read)
    ensures st.carry == Replaced(k, s, p, st.read, st.read)
  {
    var all := st.shown + st.carry;
    BaredHeld(k, s, p, st.read);
    PresentUnlessInSsn(k, s, st.read, p);
    hide Replaced, InSsn, SsnAt, SsnShape;
    var w :| 0 <= w < |all| && all[w].src == At(p);
    ReplacedAt(k, s, 0, st.read, st.read, w);
    assert |all| == w + CARRY_SIZE;
    assert all[w..] == st.carry;
  }

  lemma {:induction false} HeldIsMatched(k: CharClass, s: string, n: nat, items: seq<Item>, p: nat)
    requires RegexClasses(k) && Tracks(k, s, n, items) && Holds(items, 0, p, SSN_LENGTH + 1) && SsnShape(k, s, p)
    requires p + SSN_LENGTH < |s| && !k.word(s[p + SSN_LENGTH])
    ensures SsnAt(k, Text(items), 0)
  {
    assert Holds(items, 0, p, SSN_LENGTH);
    HeldWindow(k, s, n, items, 0, p);
    HeldText(k, s, n, items, 0, p, SSN_LENGTH + 1, SSN_LENGTH);
  }

  /** Position x has been received and is neither shown nor held. */
  ghost predicate Gone(st: StreamState, x: nat) {
    x < st.read && x !in Sources(st.shown + st.carry)
  }

  /** The next scan replaces it. */
  lemma {:induction false} BaredGoes(k: CharClass, s: string, st: StreamState, token: string, keep: nat, p: nat)
    requires SsnFirst(k, [SsnRule(k)]) && StreamInv(k, s, st) && Exact(k, s, st) && Bared(k, s, p, st.read)
    requires st.read + |token| <= |s| && s[st.read..st.read + |token|] == token
    ensures Gone(Scan([SsnRule(k)], st, token, keep), p)
  {
    hide RegexClasses, WellBehaved, QuietRules, Tracks, Scan, SsnRule, ApplyItems, Replaced, Hits, SsnShape, Bared;
    var items := st.carry + Tokens(token, st.read);
    SsnFirstAlone(k);
    StreamInvTracks(k, s, st);
    CombinedTracks(k, s, st.read, st.carry, token);
    BaredHeld(k, s, p, st.read);
    CarryIsBared(k, s, st, p);
    HoldsInPrefix(st.carry, items, |st.carry|, 0, p, SSN_LENGTH + 1);
    BaredMatched(k, s, st.read, st.read + |token|, items, p);
    ScanKeepsText(k, st, token, keep);
    SourcesOfConcat(st.shown, ApplyItems(SsnRule(k), items));
    assert st.carry[0].src == At(p);
    SourceOf(st.carry, 0);
  }

  lemma {:induction false} BaredMatched(k: CharClass, s: string, read: nat, n: nat, items: seq<Item>, p: nat)
    requires RegexClasses(k) && WellBehaved(SsnRule(k)) && Quiet(k, Placeholder(SsnRule(k).kind))
    requires Tracks(k, s, n, items) && Bared(k, s, p, read) && Holds(items, 0, p, SSN_LENGTH + 1)
    ensures p !in Sources(ApplyItems(SsnRule(k), items))
  {
    hide RegexClasses, WellBehaved, Tracks, SsnRule, ApplyItems, Replaced, Hits, SsnShape, SsnAt;
    HeldIsMatched(k, s, n, items, p);
    ApplyItemsTracks(k, s, n, SsnRule(k), items);
    assert items[0].src == At(p);
    MatchCovers(k, items, 0, 0);
  }

  lemma {:induction false} ScanKeepsGone(k: CharClass, s: string, st: StreamState, token: string, keep: nat, x: nat)
    requires SsnFirst(k, [SsnRule(k)]) && StreamInv(k, s, st) && Gone(st, x)
    requires st.read + |token| <= |s| && s[st.read..st.read + |token|] == token
    ensures Gone(Scan([SsnRule(k)], st, token, keep), x)
  {
    hide RegexClasses, WellBehaved, QuietRules, Tracks, Scan, SsnRule, ApplyItems, Hits, Sources;
    var n := st.read + |token|;
    var items := st.carry + Tokens(token, st.read);
    SsnFirstAlone(k);
    StreamInvTracks(k, s, st);
    CombinedTracks(k, s, st.read, st.carry, token);
    ApplyItemsTracks(k, s, n, SsnRule(k), items);
    ScanKeepsText(k, st, token, keep);
    SourcesOfConcat(st.shown, ApplyItems(SsnRule(k), items));
    SourcesOfConcat(st.shown, st.carry);
    SourcesOfConcat(st.carry, Tokens(token, st.read));
    TokenSources(token, st.read, x);
  }

  // ---- whole streams ----

  /** How much has been received after i tokens. */
  ghost function Boundary(tokens: seq<string>, i: nat): nat
    requires i <= |tokens|
  {
    |Concat(tokens[..i])|
  }

  ghost function After(k: CharClass, tokens: seq<string>, i: nat): StreamState
    requires AllWellBehaved([SsnRule(k)]) && i <= |tokens|
  {
    StreamItems([SsnRule(k)], tokens[..i], START)
  }

  lemma {:induction false} ConcatSplit(tokens: seq<string>, i: nat, last: string)
    requires i <= |tokens|
    ensures Concat(tokens) + last == Concat(tokens[..i]) + (Concat(tokens[i..]) + last)
  {
    if i > 0 {
      ConcatSplit(tokens[1..], i - 1, last);
      assert tokens[..i][1..] == tokens[1..][..i - 1] && tokens[1..][i - 1..] == tokens[i..];
      var front, rest := Concat(tokens[1..][..i - 1]), Concat(tokens[i..]) + last;
      assert Concat(tokens) + last == tokens[0] + (Concat(tokens[1..]) + last);
      assert tokens[0] + (front + rest) == (tokens[0] + front) + rest;
    } else {
      assert tokens[..0] == [] && tokens[0..] == tokens;
    }
  }

  /** The state after i tokens. */
  lemma {:induction false} AfterState(k: CharClass, tokens: seq<string>, last: string, i: nat)
      returns (spans: seq<Span>)
    requires SsnFirst(k, [SsnRule(k)]) && i <= |tokens|
    ensures var s := Concat(tokens) + last;
            var st := After(k, tokens, i);
            && RebuiltStream(k, s, st, spans) && st.read == Boundary(tokens, i) <= |s|
            && s[..st.read] == Concat(tokens[..i]) && s[st.read..] == Concat(tokens[i..]) + last
  {
    hide StreamItems, RegexClasses, WellBehaved, QuietRules, SsnRule, Rebuilt;
    var s := Concat(tokens) + last;
    StartInv(k, s);
    assert s[0..] == s && s[..0] == "";
    StartRebuilt(k, s);
    ConcatSplit(tokens, i, last);
    spans := StreamRebuilt(k, s, tokens[..i], START, Concat(tokens[i..]) + last, []);
  }

  lemma {:induction false} StartRebuilt(k: CharClass, s: string)
    ensures Rebuilt(k, s, 0, START.shown + START.carry, [])
  {
    assert s[..0] == "";
  }

  lemma {:induction false} StreamSnoc(rules: seq<Rule>, tokens: seq<string>, token: string, st: StreamState)
    requires AllWellBehaved(rules) && rules != []
    ensures StreamItems(rules, tokens + [token], st) == Scan(rules, StreamItems(rules, tokens, st), token, CARRY_SIZE)
  {
    hide Scan, AllWellBehaved;
    if tokens == [] {
      assert [token][1..] == [];
      assert [] + [token] == [token];
    } else {
      assert (tokens + [token])[1..] == tokens[1..] + [token];
      StreamSnoc(rules, tokens[1..], token, Scan(rules, st, tokens[0], CARRY_SIZE));
    }
  }

  lemma {:induction false} ConcatSnoc(tokens: seq<string>, token: string)
    ensures Concat(tokens + [token]) == Concat(tokens) + token
  {
    if tokens == [] {
      assert [] + [token] == [token] && [token][1..] == [];
    } else {
      ConcatSnoc(tokens[1..], token);
      assert (tokens + [token])[1..] == tokens[1..] + [token];
    }
  }

  /** One more token: what it reads, and the state after it. */
  lemma {:induction false} AfterNext(k: CharClass, tokens: seq<string>, last: string, i: nat)
    requires SsnFirst(k, [SsnRule(k)]) && i < |tokens|
    ensures After(k, tokens, i + 1) == Scan([SsnRule(k)], After(k, tokens, i), tokens[i], CARRY_SIZE)
    ensures var s := Concat(tokens) + last;
            var to := Boundary(tokens, i) + |tokens[i]|;
            to == Boundary(tokens, i + 1) <= |s| && s[Boundary(tokens, i)..to] == tokens[i]
  {
    hide Scan, StreamItems, RegexClasses, WellBehaved, AllWellBehaved, QuietRules, SsnRule, RebuiltStream;
    var spans := AfterState(k, tokens, last, i);
    assert tokens[..i + 1] == tokens[..i] + [tokens[i]];
    StreamSnoc([SsnRule(k)], tokens[..i], tokens[i], START);
    SplitTail(Concat(tokens) + last, Boundary(tokens, i), tokens[i], Concat(tokens[i..][1..]) + last);
    ConcatSnoc(tokens[..i], tokens[i]);
  }

  lemma {:induction false} ExactStart(k: CharClass, s: string)
    ensures Exact(k, s, START)
  {
  }

  lemma {:induction false} ExactNext(k: CharClass, tokens: seq<string>, last: string, i: nat)
    requires SsnFirst(k, [SsnRule(k)]) && i < |tokens|
    requires var s := Concat(tokens) + last;
             && Exact(k, s, After(k, tokens, i))
             && Boundary(tokens, i + 1) <= |s|
             && NoneExposed(k, s, Boundary(tokens, i), Boundary(tokens, i + 1))
    ensures Exact(k, Concat(tokens) + last, After(k, tokens, i + 1))
  {
    hide After, Boundary, Exact, NoneExposed, Scan, RegexClasses, WellBehaved, AllWellBehaved, QuietRules, SsnRule,
         Rebuilt, StreamInv, Replaced;
    var s := Concat(tokens) + last;
    var st := After(k, tokens, i);
    var spans := AfterState(k, tokens, last, i);
    var more := AfterState(k, tokens, last, i + 1);
    AfterNext(k, tokens, last, i);
    hide Concat;
    ScanExact(k, s, st, tokens[i], CARRY_SIZE, more);
    ScanCarry(k, s, st, tokens[i]);
  }

  /** No boundary before the i-th is of one of the two kinds, and the i-th stands in no longer number. */
  ghost predicate NoneExposedBefore(k: CharClass, s: string, tokens: seq<string>, i: nat)
    requires i <= |tokens|
  {
    forall h: nat, p: nat :: && (h < i ==> !Bared(k, s, p, Boundary(tokens, h)))
                             && (h <= i ==> !GoesOn(k, s, p, Boundary(tokens, h)))
  }

  lemma {:induction false} NoneBetween(k: CharClass, s: string, tokens: seq<string>, i: nat)
    requires i < |tokens| && NoneExposedBefore(k, s, tokens, i + 1)
    ensures NoneExposedBefore(k, s, tokens, i)
    ensures NoneExposed(k, s, Boundary(tokens, i), Boundary(tokens, i + 1))
  {
    hide Bared, GoesOn, Boundary;
    forall p: nat
      ensures !Bared(k, s, p, Boundary(tokens, i)) && !GoesOn(k, s, p, Boundary(tokens, i + 1))
    {
    }
  }

  /** As long as no boundary exposes anything, exactly the SSNs received are replaced. */
  lemma {:induction false} ExactAfter(k: CharClass, tokens: seq<string>, last: string, i: nat)
    requires SsnFirst(k, [SsnRule(k)]) && i <= |tokens|
    requires NoneExposedBefore(k, Concat(tokens) + last, tokens, i)
    ensures Exact(k, Concat(tokens) + last, After(k, tokens, i))
  {
    hide NoneExposed, NoneExposedBefore, Exact, Scan, RegexClasses, WellBehaved, AllWellBehaved, QuietRules, SsnRule,
         Concat;
    var s := Concat(tokens) + last;
    if i == 0 {
      assert tokens[..0] == [];
      ExactStart(k, s);
    } else {
      hide After, Boundary;
      NoneBetween(k, s, tokens, i - 1);
      ExactAfter(k, tokens, last, i - 1);
      AfterNext(k, tokens, last, i - 1);
      ExactNext(k, tokens, last, i - 1);
    }
  }

  /** What scanning the whole text at once shows. */
  lemma {:induction false} WholeIsReplaced(k: CharClass, s: string)
    requires RegexClasses(k)
    ensures AllWellBehaved([SsnRule(k)])
    ensures RedactText([SsnRule(k)], s) == Text(Replaced(k, s, 0, |s|, |s|))
  {
    hide RegexClasses, SsnAt, SsnRule, AllWellBehaved, RedactText, Rebuild, Replaced, Ordered;
    WholeSsnText(k, s);
    var found := FindSsn(k, s, 0);
    FoundAreSsns(k, s, found);
    RebuildIsReplaced(k, s, 0, |s|, found);
    var source := Tokens(s[..|s|], 0);
    RebuildText(source, 0, found, Placeholder("SSN"));
    assert Text(source) == s;
  }

  lemma {:induction false} FoundAreSsns(k: CharClass, s: string, found: seq<Span>)
    requires forall span :: span in found <==> span.end == span.start + SSN_LENGTH && SsnAt(k, s, span.start)
    ensures AreSsns(k, s, 0, |s|, found)
  {
  }

  /** The last flush of an exact state. */
  lemma {:induction false} LastExact(k: CharClass, tokens: seq<string>, last: string)
    requires SsnFirst(k, [SsnRule(k)])
    requires var s := Concat(tokens) + last;
             && Exact(k, s, After(k, tokens, |tokens|))
             && forall p: nat :: !Bared(k, s, p, Boundary(tokens, |tokens|))
    ensures StreamedText([SsnRule(k)], tokens, last) == RedactText([SsnRule(k)], Concat(tokens) + last)
  {
    hide Boundary, Exact, Scan, RegexClasses, WellBehaved, AllWellBehaved, QuietRules, SsnRule, Rebuilt, StreamInv,
         Replaced, Bared, StreamItems, StreamedText, RedactText;
    var s := Concat(tokens) + last;
    var st := After(k, tokens, |tokens|);
    var spans := AfterState(k, tokens, last, |tokens|);
    assert tokens[..|tokens|] == tokens && tokens[|tokens|..] == [];
    NothingLeft(last);
    hide Concat;
    assert s[st.read..st.read + |last|] == last && st.read + |last| == |s|;
    StreamInvTracks(k, s, st);
    var more := ScanRebuilt(k, s, st, last, 0, spans);
    ScanInv(k, s, [SsnRule(k)], st, last, 0);
    ScanKeepsText(k, st, last, 0);
    NoneAtEnd(k, s, st.read);
    ScanExact(k, s, st, last, 0, more);
    LastScan([SsnRule(k)], st, last);
    StreamedItemsText([SsnRule(k)], tokens, last);
    WholeIsReplaced(k, s);
  }

  lemma {:induction false} NoneAtEnd(k: CharClass, s: string, read: nat)
    requires forall p: nat :: !Bared(k, s, p, read)
    ensures NoneExposed(k, s, read, |s|)
  {
    hide Bared;
  }

  /** A number cut short at a boundary is gone there: so far it is an SSN. */
  lemma {:induction false} GoesOnGoes(k: CharClass, tokens: seq<string>, last: string, i: nat, p: nat)
    requires SsnFirst(k, [SsnRule(k)]) && i <= |tokens|
    requires GoesOn(k, Concat(tokens) + last, p, Boundary(tokens, i))
    ensures Gone(After(k, tokens, i), p)
    ensures !InSsn(k, Concat(tokens) + last, p, |Concat(tokens) + last|)
  {
    hide RegexClasses, WellBehaved, AllWellBehaved, QuietRules, SsnRule, StreamItems, StreamInv, Rebuilt, SsnAt,
         SsnShape, Concat;
    var s := Concat(tokens) + last;
    var front := Concat(tokens[..i]);
    var spans := AfterState(k, tokens, last, i);
    assert front == s[..|front|];
    GoesOnIsNoSsn(k, s, p, |front|);
    PrefixIsSsn(k, s, |front|, p);
    assert front + "" == front;
    NoSsnShownEarly(k, [SsnRule(k)], tokens[..i], "", p);
    var st := After(k, tokens, i);
    SourcesOfConcat(st.shown, st.carry);
  }

  lemma {:induction false} GoesOnIsNoSsn(k: CharClass, s: string, p: nat, n: nat)
    requires RegexClasses(k) && GoesOn(k, s, p, n)
    ensures !InSsn(k, s, p, |s|)
  {
    NotInSsn(k, s, p);
  }

  lemma {:induction false} PrefixIsSsn(k: CharClass, s: string, n: nat, p: nat)
    requires GoesOn(k, s, p, n)
    ensures n <= |s| && SsnAt(k, s[..n], p)
  {
    forall q | p <= q < n ensures SsnChar(k, q - p, s[..n][q]) {
      assert SsnChar(k, q - p, s[q]);
    }
  }

  lemma {:induction false} NotInSsn(k: CharClass, s: string, p: nat)
    requires RegexClasses(k) && SsnShape(k, s, p) && (p == 0 || !k.word(s[p - 1])) && !SsnAt(k, s, p)
    ensures !InSsn(k, s, p, |s|)
  {
    forall i: nat | SsnAt(k, s, i) ensures !(i <= p < i + SSN_LENGTH) {
      if i <= p < i + SSN_LENGTH {
        OnlyItselfCoversStart(k, s, i, p);
      }
    }
  }

  lemma {:induction false} GoneLater(k: CharClass, tokens: seq<string>, last: string, i: nat, h: nat, x: nat)
    requires SsnFirst(k, [SsnRule(k)]) && i <= h <= |tokens| && Gone(After(k, tokens, i), x)
    ensures Gone(After(k, tokens, h), x)
    decreases h
  {
    hide RegexClasses, WellBehaved, AllWellBehaved, QuietRules, SsnRule, Scan, StreamInv, Rebuilt, Concat, Gone, After;
    if i < h {
      GoneLater(k, tokens, last, i, h - 1, x);
      var spans := AfterState(k, tokens, last, h - 1);
      AfterNext(k, tokens, last, h - 1);
      ScanKeepsGone(k, Concat(tokens) + last, After(k, tokens, h - 1), tokens[h - 1], CARRY_SIZE, x);
    }
  }

  /** What is gone is not shown at the end. */
  lemma {:induction false} GoneAtEnd(k: CharClass, tokens: seq<string>, last: string, i: nat, x: nat)
    requires SsnFirst(k, [SsnRule(k)]) && i <= |tokens| && Gone(After(k, tokens, i), x)
    ensures Gone(Streamed([SsnRule(k)], tokens, last), x)
  {
    hide RegexClasses, WellBehaved, AllWellBehaved, QuietRules, SsnRule, Scan, StreamInv, Rebuilt, Gone, StreamItems;
    var s := Concat(tokens) + last;
    GoneLater(k, tokens, last, i, |tokens|, x);
    var spans := AfterState(k, tokens, last, |tokens|);
    assert tokens[..|tokens|] == tokens && tokens[|tokens|..] == [];
    NothingLeft(last);
    var st := After(k, tokens, |tokens|);
    assert s[st.read..st.read + |last|] == last;
    ScanKeepsGone(k, s, st, last, 0, x);
  }

  lemma {:induction false} BaredAtEnd(k: CharClass, tokens: seq<string>, last: string, i: nat, p: nat)
    requires SsnFirst(k, [SsnRule(k)]) && i <= |tokens|
    requires var s := Concat(tokens) + last;
             Exact(k, s, After(k, tokens, i)) && Bared(k, s, p, Boundary(tokens, i))
    ensures Gone(Streamed([SsnRule(k)], tokens, last), p)
  {
    hide RegexClasses, WellBehaved, AllWellBehaved, QuietRules, SsnRule, Scan, StreamInv, Rebuilt, Gone, StreamItems,
         Exact, Bared;
    var s := Concat(tokens) + last;
    var spans := AfterState(k, tokens, last, i);
    var st := After(k, tokens, i);
    if i < |tokens| {
      hide Concat;
      AfterNext(k, tokens, last, i);
      BaredGoes(k, s, st, tokens[i], CARRY_SIZE, p);
      GoneAtEnd(k, tokens, last, i + 1, p);
    } else {
      assert tokens[..i] == tokens && tokens[i..] == [];
      NothingLeft(last);
      assert s[st.read..st.read + |last|] == last;
      BaredGoes(k, s, st, last, 0, p);
    }
  }

  /** At the first boundary that exposes something the stream is still exact, and then a character
      outside all SSNs goes. */
  lemma {:induction false} ExposedGoes(k: CharClass, tokens: seq<string>, last: string, i: nat, p: nat) returns (x: nat)
    requires SsnFirst(k, [SsnRule(k)]) && i <= |tokens|
    requires Exposes(k, Concat(tokens) + last, p, Boundary(tokens, i))
    ensures !InSsn(k, Concat(tokens) + last, x, |Concat(tokens) + last|)
    ensures Gone(Streamed([SsnRule(k)], tokens, last), x)
    decreases i
  {
    hide RegexClasses, WellBehaved, AllWellBehaved, QuietRules, SsnRule, GoesOn, Boundary, After, Gone, Streamed,
         Concat, Exact, InSsn;
    var s := Concat(tokens) + last;
    if h: nat, q: nat :| h <= i && GoesOn(k, s, q, Boundary(tokens, h)) {
      GoesOnGoes(k, tokens, last, h, q);
      GoneAtEnd(k, tokens, last, h, q);
      x := q;
    } else if h: nat, q: nat :| h < i && Bared(k, s, q, Boundary(tokens, h)) {
      x := ExposedGoes(k, tokens, last, h, q);
    } else {
      assert !GoesOn(k, s, p, Boundary(tokens, i));
      assert NoneExposedBefore(k, s, tokens, i);
      ExactAfter(k, tokens, last, i);
      BaredAtEnd(k, tokens, last, i, p);
      x := p;
    }
  }

  lemma {:induction false} GoneDiffers(k: CharClass, tokens: seq<string>, last: string, x: nat)
    requires SsnFirst(k, [SsnRule(k)]) && Gone(Streamed([SsnRule(k)], tokens, last), x)
    requires x < |Concat(tokens) + last| && !InSsn(k, Concat(tokens) + last, x, |Concat(tokens) + last|)
    ensures StreamedText([SsnRule(k)], tokens, last) != RedactText([SsnRule(k)], Concat(tokens) + last)
  {
    hide RegexClasses, WellBehaved, AllWellBehaved, QuietRules, SsnRule, Streamed, StreamedText, RedactText, Concat,
         SsnAt, SsnShape, Ordered;
    var s := Concat(tokens) + last;
    var spans := StreamedEqualsWholeWhen(k, tokens, last);
    var end := Streamed([SsnRule(k)], tokens, last);
    SourcesOfConcat(end.shown, end.carry);
    var source := Tokens(s[..|s|], 0);
    var span := MissingIsSpanned(source, 0, spans, Marks(Placeholder("SSN")), x);
    assert ShapeSpan(k, s, span);
    OrderedEnds(spans, 0, |s|, span);
    assert !SsnAt(k, s, span.start);
  }

  /** Streaming shows what scanning the whole text at once shows exactly if no token boundary stands
      right behind a stretch of SSN shape that goes on, or lets the carry begin with one. */
  lemma {:induction false} StreamedEqualsWholeExactly(k: CharClass, tokens: seq<string>, last: string)
    requires RegexClasses(k)
    ensures AllWellBehaved([SsnRule(k)])
    ensures var s := Concat(tokens) + last;
            StreamedText([SsnRule(k)], tokens, last) == RedactText([SsnRule(k)], s)
            <==> forall i: nat, p: nat :: i <= |tokens| ==> !Exposes(k, s, p, Boundary(tokens, i))
  {
    hide RegexClasses, WellBehaved, AllWellBehaved, QuietRules, SsnRule, Streamed, StreamedText, RedactText, Concat,
         GoesOn, Bared, Exact, After, Boundary, Gone, InSsn;
    SsnFirstAlone(k);
    var s := Concat(tokens) + last;
    if i: nat, p: nat :| i <= |tokens| && Exposes(k, s, p, Boundary(tokens, i)) {
      var x := ExposedGoes(k, tokens, last, i, p);
      GoneInText(k, tokens, last, x);
      GoneDiffers(k, tokens, last, x);
    } else {
      assert NoneExposedBefore(k, s, tokens, |tokens|) by {
        forall h: nat, p: nat | h <= |tokens|
          ensures !Bared(k, s, p, Boundary(tokens, h)) && !GoesOn(k, s, p, Boundary(tokens, h))
        {
          assert !Exposes(k, s, p, Boundary(tokens, h));
        }
      }
      forall p: nat ensures !Bared(k, s, p, Boundary(tokens, |tokens|)) {
        assert !Exposes(k, s, p, Boundary(tokens, |tokens|));
      }
      ExactAfter(k, tokens, last, |tokens|);
      LastExact(k, tokens, last);
    }
  }

  lemma {:induction false} GoneInText(k: CharClass, tokens: seq<string>, last: string, x: nat)
    requires SsnFirst(k, [SsnRule(k)]) && Gone(Streamed([SsnRule(k)], tokens, last), x)
    ensures x < |Concat(tokens) + last|
  {
    hide RegexClasses, WellBehaved, AllWellBehaved, QuietRules, SsnRule, Scan, StreamInv, Rebuilt, StreamItems;
    var spans := AfterState(k, tokens, last, |tokens|);
    assert tokens[..|tokens|] == tokens && tokens[|tokens|..] == [];
    NothingLeft(last);
    ScanKeepsText(k, After(k, tokens, |tokens|), last, 0);
  }

  lemma {:induction false} OneCut(s: string, n: nat)
    requires n <= |s|
    ensures Concat([s[..n]]) + s[n..] == s && Boundary([s[..n]], 1) == n
  {
    assert [s[..n]][1..] == [] && [s[..n]][..1] == [s[..n]];
    assert Concat([s[..n]]) == s[..n] + Concat([]);
  }

  /** Every way of cutting a text into tokens shows what scanning it at once shows exactly if no
      position of the text at all is such a boundary. */
  lemma {:induction false} EveryCuttingAgrees(k: CharClass, s: string)
    requires RegexClasses(k)
    ensures AllWellBehaved([SsnRule(k)])
    ensures (forall tokens: seq<string>, last: string :: Concat(tokens) + last == s
               ==> StreamedText([SsnRule(k)], tokens, last) == RedactText([SsnRule(k)], s))
            <==> forall p: nat, n: nat :: !Exposes(k, s, p, n)
  {
    hide RegexClasses, WellBehaved, AllWellBehaved, QuietRules, SsnRule, StreamedText, RedactText, Concat, Boundary;
    SsnFirstAlone(k);
    if p: nat, n: nat :| Exposes(k, s, p, n) {
      hide Replaced, SsnShape, InSsn;
      var tokens, last := [s[..n]], s[n..];
      OneCut(s, n);
      StreamedEqualsWholeExactly(k, tokens, last);
      assert Exposes(k, s, p, Boundary(tokens, 1));
    } else {
      hide Exposes;
      forall tokens: seq<string>, last: string | Concat(tokens) + last == s
        ensures StreamedText([SsnRule(k)], tokens, last) == RedactText([SsnRule(k)], s)
      {
        StreamedEqualsWholeExactly(k, tokens, last);
      }
    }
  }

  /** In a text whose shapes all stand behind a non-word character, only the character behind counts. */
  lemma {:induction false} EveryCuttingAgreesApart(k: CharClass, s: string)
    requires RegexClasses(k)
    requires forall p: nat :: SsnShape(k, s, p) ==> p == 0 || !k.word(s[p - 1])
    ensures AllWellBehaved([SsnRule(k)])
    ensures (forall tokens: seq<string>, last: string :: Concat(tokens) + last == s
               ==> StreamedText([SsnRule(k)], tokens, last) == RedactText([SsnRule(k)], s))
            <==> forall p: nat :: SsnShape(k, s, p) ==> SsnAt(k, s, p)
  {
    hide RegexClasses, WellBehaved, AllWellBehaved, QuietRules, SsnRule, StreamedText, RedactText, Concat, Replaced,
         InSsn;
    EveryCuttingAgrees(k, s);
    if p: nat :| SsnShape(k, s, p) && !SsnAt(k, s, p) {
      assert Exposes(k, s, p, p + SSN_LENGTH);
    }
  }

  const LETTER_FIRST := "x123-45-6789" + "                   "

  lemma {:induction false} LetterFirstShape(k: CharClass)
    requires forall c :: '0' <= c <= '9' ==> k.digit(c)
    ensures |LETTER_FIRST| == 31 && LETTER_FIRST[0] == 'x' && LETTER_FIRST[12] == ' '
    ensures SsnShape(k, LETTER_FIRST, 1)
  {
  }

  lemma {:induction false} LetterFirstNone(k: CharClass, i: nat)
    requires k.word('x')
    ensures !SsnAt(k, LETTER_FIRST, i)
  {
    var s := LETTER_FIRST;
    assert s[0] == 'x' && forall q :: 0 <= q < |s| && s[q] == '-' ==> q == 4 || q == 7;
    if SsnAt(k, s, i) {
      hide SsnShape;
      DashedShape(k, s, i);
    }
  }

  lemma {:induction false} LetterFirstBared(k: CharClass)
    requires RegexClasses(k) && (forall c :: '0' <= c <= '9' ==> k.digit(c)) && k.word('x') && !k.word(' ')
    ensures Bared(k, LETTER_FIRST, 1, 31)
  {
    LetterFirstShape(k);
    hide SsnAt, SsnShape, RegexClasses;
    var s := LETTER_FIRST;
    hide LETTER_FIRST;
    forall i: nat ensures !SsnAt(k, s, i) {
      LetterFirstNone(k, i);
    }
    ReplacedCopies(k, s, 1, 31, 30);
    assert Replaced(k, s, 31, 31, 31) == [];
    hide Replaced;
  }

  /** The second kind of boundary: 31 characters in, the carry begins right behind the letter. */
  lemma {:induction false} LetterSentBefore(k: CharClass)
    requires RegexClasses(k) && (forall c :: '0' <= c <= '9' ==> k.digit(c)) && k.word('x') && !k.word(' ')
    ensures AllWellBehaved([SsnRule(k)])
    ensures StreamedText([SsnRule(k)], [LETTER_FIRST], "") != RedactText([SsnRule(k)], LETTER_FIRST)
  {
    hide SsnAt, SsnShape, RegexClasses, StreamedText, RedactText, AllWellBehaved, SsnRule, Bared;
    LetterFirstBared(k);
    LetterFirstShape(k);
    var s := LETTER_FIRST;
    assert s[..31] == s && s[31..] == "";
    OneCut(s, 31);
    assert Exposes(k, s, 1, Boundary([s], 1));
    StreamedEqualsWholeExactly(k, [s], "");
  }
}
