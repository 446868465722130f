/** The other rules beside the SSN rule. They run behind it on every window, so one of them may take the
    first digits of an SSN whose rest has not arrived; the rest is then shown. Whether that can happen is
    a matter of the rules alone. A window that holds no complete SSN may end in the first characters of
    one: if no other rule, each on the text the rules before it leave, ever matches into such an end,
    then no SSN of any text, however it is cut, loses a character to another rule, and none is shown. If
    one does, there are a text and a cutting in which an SSN loses characters. The first half follows
    the end of a window through the rules, the second completes the window to an SSN. What is looked at
    are texts as the rules see them: behind the SSN rule there is no complete SSN left. */
module SsnStreamRules {
  import opened Redaction
  import opened SsnStream
  import opened SsnStreamText
  import opened SsnStreamExact

  // ---- windows that end in the beginning of an SSN ----

  ghost predicate NoSsnIn(k: CharClass, t: string) {
    forall p: nat :: !SsnAt(k, t, p)
  }

  /** The last m characters begin an SSN, but are not all of it. */
  ghost predicate OpenEnd(k: CharClass, t: string, m: nat) {
    && 0 < m < SSN_LENGTH && m <= |t|
    && (m == |t| || !k.word(t[|t| - m - 1]))
    && forall q :: |t| - m <= q < |t| ==> SsnChar(k, q - (|t| - m), t[q])
  }

  /** Each rule on the text the rules before it leave: no match reaches into the last m characters. */
  ghost predicate Spares(rules: seq<Rule>, t: string, m: nat)
    requires AllWellBehaved(rules)
    decreases |rules|
  {
    rules == [] || (EndsBefore(rules[0], t, m) && Spares(rules[1..], ApplyRule(rules[0], t), m))
  }

  ghost predicate EndsBefore(rule: Rule, t: string, m: nat) {
    forall h :: h in Hits(rule, t) ==> h.end + m <= |t|
  }

  /** The rules never match into the beginning of an SSN at the end of a text without SSNs. */
  ghost predicate RulesSpare(k: CharClass, rules: seq<Rule>)
    requires AllWellBehaved(rules)
  {
    forall t: string, m: nat :: NoSsnIn(k, t) && OpenEnd(k, t, m) ==> Spares(rules, t, m)
  }

  // ---- the SSN rule leaves no SSN ----

  lemma {:induction false} SsnAppliedItems(k: CharClass, t: string)
    requires RegexClasses(k)
    ensures WellBehaved(SsnRule(k)) && Quiet(k, Placeholder(SsnRule(k).kind))
    ensures ApplyItems(SsnRule(k), Tokens(t, 0)) == Replaced(k, t, 0, |t|, |t|)
  {
    hide RegexClasses, SsnAt, Rebuild, Replaced, Ordered, SpliceAll;
    var found, items := FindSsn(k, t, 0), Tokens(t, 0);
    SsnFirstAlone(k);
    WholeSsnText(k, t);
    FoundAreSsns(k, t, found);
    RebuildIsReplaced(k, t, 0, |t|, found);
    AcceptedAll(SsnRule(k), t, found);
    SpliceAllIsRebuild(items, 0, found, Marks(Placeholder("SSN")));
    assert Text(items) == t && t[..|t|] == t;
  }

  lemma {:induction false} SsnAppliedText(k: CharClass, t: string)
    requires RegexClasses(k)
    ensures WellBehaved(SsnRule(k)) && ApplyRule(SsnRule(k), t) == Text(Replaced(k, t, 0, |t|, |t|))
  {
    hide RegexClasses, ApplyRule, Replaced, SsnRule, RedactText;
    SsnFirstAlone(k);
    WholeIsReplaced(k, t);
    OneRule(SsnRule(k), t);
  }

  lemma {:induction false} ReplacedTracks(k: CharClass, t: string)
    requires RegexClasses(k)
    ensures Tracks(k, t, |t|, Replaced(k, t, 0, |t|, |t|))
  {
    hide Tracks, RegexClasses, Replaced, ApplyItems, SsnRule, WellBehaved;
    SsnAppliedItems(k, t);
    EmptyTracks(k, t);
    assert [] + Tokens(t, 0) == Tokens(t, 0) && t[0..0 + |t|] == t;
    CombinedTracks(k, t, 0, [], t);
    ApplyItemsTracks(k, t, |t|, SsnRule(k), Tokens(t, 0));
  }

  lemma {:induction false} EmptyTracks(k: CharClass, t: string)
    ensures Tracks(k, t, 0, [])
  {
  }

  /** Behind the SSN rule there is no SSN, and none has come about. */
  lemma {:induction false} NoSsnBehindRule(k: CharClass, t: string)
    requires RegexClasses(k)
    ensures WellBehaved(SsnRule(k)) && NoSsnIn(k, ApplyRule(SsnRule(k), t))
  {
    hide RegexClasses, Tracks, Replaced, ApplyRule, SsnRule, WellBehaved, SsnAt;
    SsnAppliedText(k, t);
    ReplacedTracks(k, t);
    forall w: nat ensures !SsnAt(k, Text(Replaced(k, t, 0, |t|, |t|)), w) {
      if SsnAt(k, Text(Replaced(k, t, 0, |t|, |t|)), w) {
        SsnLeftIsSsn(k, t, w);
      }
    }
  }

  lemma {:induction false} SsnLeftIsSsn(k: CharClass, t: string, w: nat)
    requires RegexClasses(k) && Tracks(k, t, |t|, Replaced(k, t, 0, |t|, |t|))
    requires SsnAt(k, Text(Replaced(k, t, 0, |t|, |t|)), w)
    ensures false
  {
    hide RegexClasses, Tracks, Replaced, SsnAt, SsnShape;
    var n := |t|;
    var items := Replaced(k, t, 0, n, n);
    MatchStands(k, items, w);
    MatchIsSourceShape(k, t, n, items, w);
    var j := items[w].src.index;
    BeforeShape(k, t, n, n, w, j);
    BehindShape(k, t, n, n, w, j);
    ShapeAlone(k, t, j);
    ReplacedAt(k, t, 0, n, n, w);
  }

  lemma {:induction false} ShapeAlone(k: CharClass, t: string, j: nat)
    requires SsnShape(k, t, j) && (j == 0 || !k.word(t[j - 1]))
    ensures j + SSN_LENGTH <= |t|
    ensures j + SSN_LENGTH == |t| || !k.word(t[j + SSN_LENGTH]) ==> SsnAt(k, t, j)
  {
  }

  // ---- the end of a window, through the rules ----

  lemma {:induction false} SparedEnd(k: CharClass, s: string, n: nat, rule: Rule, items: seq<Item>, j: nat)
    requires RegexClasses(k) && WellBehaved(rule) && Quiet(k, Placeholder(rule.kind)) && Tracks(k, s, n, items)
    requires j < n && EndsWith(items, j, n) && EndsBefore(rule, Text(items), n - j)
    ensures HasAll(ApplyItems(rule, items), j, n)
  {
    hide RegexClasses, WellBehaved, Quiet, ApplyItems, Hits, Placeholder, Tracks, Covered, Ordered;
    ApplyItemsTracks(k, s, n, rule, items);
    forall x: nat | j <= x < n ensures x in Sources(ApplyItems(rule, items)) {
      SourceOf(items, |items| - (n - x));
      SparedPosition(k, s, n, items, Hits(rule, Text(items)), j, x);
    }
  }

  lemma {:induction false} MatchedEnd(k: CharClass, s: string, n: nat, rule: Rule, items: seq<Item>, j: nat)
    requires RegexClasses(k) && WellBehaved(rule) && Quiet(k, Placeholder(rule.kind)) && Tracks(k, s, n, items)
    requires j < n && EndsWith(items, j, n) && !EndsBefore(rule, Text(items), n - j)
    ensures !HasAll(ApplyItems(rule, items), j, n)
  {
    hide RegexClasses, WellBehaved, Quiet, ApplyItems, Hits, Placeholder, Tracks, Covered, Ordered, EndsWith;
    ApplyItemsTracks(k, s, n, rule, items);
    var h :| h in Hits(rule, Text(items)) && h.end + (n - j) > |items|;
    HitPosition(items, Hits(rule, Text(items)), h, j, n);
  }

  /** One rule leaves the last positions of a window alone exactly if no match reaches into them. */
  lemma {:induction false} RuleKeepsEnd(k: CharClass, s: string, n: nat, rule: Rule, items: seq<Item>, j: nat)
    requires RegexClasses(k) && WellBehaved(rule) && Quiet(k, Placeholder(rule.kind)) && Tracks(k, s, n, items)
    requires j < n && EndsWith(items, j, n)
    ensures HasAll(ApplyItems(rule, items), j, n) <==> EndsBefore(rule, Text(items), n - j)
    ensures EndsBefore(rule, Text(items), n - j) ==> EndsWith(ApplyItems(rule, items), j, n)
  {
    hide RegexClasses, WellBehaved, Quiet, ApplyItems, Placeholder, Tracks, EndsWith, HasAll, EndsBefore;
    if EndsBefore(rule, Text(items), n - j) {
      SparedEnd(k, s, n, rule, items, j);
      ApplyItemsKeepsEnd(k, s, n, rule, items, j);
    } else {
      MatchedEnd(k, s, n, rule, items, j);
    }
  }

  lemma {:induction false} SparedPosition(k: CharClass, s: string, n: nat, items: seq<Item>, hits: seq<Span>, j: nat,
                                          x: nat)
    requires Tracks(k, s, n, items) && EndsWith(items, j, n) && j <= x < n && Ordered(hits, 0, |items|)
    requires forall h :: h in hits ==> h.end + (n - j) <= |items|
    ensures x !in Covered(items, hits, 0)
  {
    hide Ordered, Covered;
    if x in Covered(items, hits, 0) {
      var span, q := CoveredBy(items, hits, 0, x);
      RisingUnique(items, q, |items| - (n - x));
    }
  }

  lemma {:induction false} HitPosition(items: seq<Item>, hits: seq<Span>, h: Span, j: nat, n: nat)
    requires EndsWith(items, j, n) && j < n && Ordered(hits, 0, |items|) && h in hits && h.end + (n - j) > |items|
    ensures exists x: nat :: j <= x < n && x in Covered(items, hits, 0)
  {
    hide Covered;
    OrderedEnds(hits, 0, |items|, h);
    OrderedStarts(hits, 0, |items|, h);
    var q := if h.start < |items| - (n - j) then |items| - (n - j) else h.start;
    assert items[q].src == At(j + q - (|items| - (n - j)));
    Covers(items, hits, 0, h, q);
  }

  lemma {:induction false} ApplyItemsText(rule: Rule, items: seq<Item>)
    requires WellBehaved(rule)
    ensures Text(ApplyItems(rule, items)) == ApplyRule(rule, Text(items))
  {
    AcceptedOrdered(rule, Text(items), rule.find(Text(items)), 0, |items|);
    SpliceAllText(items, 0, Hits(rule, Text(items)), Placeholder(rule.kind));
  }

  /** All the rules do exactly if they spare them. */
  lemma {:induction false} RulesKeepEnd(k: CharClass, s: string, n: nat, rules: seq<Rule>, items: seq<Item>, j: nat)
    requires RegexClasses(k) && AllWellBehaved(rules) && QuietRules(k, rules) && Tracks(k, s, n, items)
    requires j < n && EndsWith(items, j, n)
    ensures HasAll(RedactItems(rules, items), j, n) <==> Spares(rules, Text(items), n - j)
    decreases |rules|
  {
    if rules == [] {
      forall x: nat | j <= x < n ensures x in Sources(items) {
        SourceOf(items, |items| - (n - x));
      }
    } else {
      var after := ApplyItems(rules[0], items);
      assert RedactItems(rules, items) == RedactItems(rules[1..], after);
      hide RegexClasses, WellBehaved, Quiet, ApplyItems, Tracks, EndsBefore, EndsWith, Sources;
      RuleKeepsEnd(k, s, n, rules[0], items, j);
      ApplyItemsTracks(k, s, n, rules[0], items);
      ApplyItemsText(rules[0], items);
      if EndsBefore(rules[0], Text(items), n - j) {
        RulesKeepEnd(k, s, n, rules[1..], after, j);
      } else {
        RedactItemsTracks(k, s, n, rules[1..], after);
      }
    }
  }

  // ---- rules that spare: no SSN loses a character ----

  /** The end of a window behind the SSN rule, if an SSN has arrived in part. */
  lemma {:induction false} EndIsOpen(k: CharClass, s: string, n: nat, items: seq<Item>, j: nat)
    requires RegexClasses(k) && Tracks(k, s, n, items) && SsnAt(k, s, j) && j < n < j + SSN_LENGTH
    requires EndsWith(items, j, n)
    ensures OpenEnd(k, Text(items), n - j)
  {
    var p := |items| - (n - j);
    var t := Text(items);
    if p > 0 {
      BeforeHeld(k, s, n, items, p, j, n - j);
    }
    forall q | p <= q < |t| ensures SsnChar(k, q - p, t[q]) {
      HeldText(k, s, n, items, p, j, n - j, q - p);
      assert SsnChar(k, q - p, s[j + q - p]);
    }
  }

  /** What the rules behind the SSN rule take in a scan. */
  lemma {:induction false} ScanTaken(rules: seq<Rule>, st: StreamState, token: string, keep: nat)
    requires AllWellBehaved(rules) && rules != []
    ensures var after := ApplyItems(rules[0], st.carry + Tokens(token, st.read));
            Scan(rules, st, token, keep).taken == st.taken + (Sources(after) - Sources(RedactItems(rules[1..], after)))
  {
    hide ApplyItems, RedactItems, Sources, AllWellBehaved;
  }

  /** A window behind the SSN rule. */
  lemma {:induction false} AfterFirst(k: CharClass, s: string, st: StreamState, token: string, j: nat)
    requires RegexClasses(k) && SsnAt(k, s, j) && Contained(st, j) && Tracks(k, s, st.read, st.carry)
    requires st.read + |token| <= |s| && s[st.read..st.read + |token|] == token
    ensures WellBehaved(SsnRule(k))
    ensures var after := ApplyItems(SsnRule(k), st.carry + Tokens(token, st.read));
            && Tracks(k, s, st.read + |token|, after) && Treated(after, st.read + |token|, j)
            && NoSsnIn(k, Text(after))
  {
    hide RegexClasses, WellBehaved, Tracks, SsnAt, Contained, SsnRule, ApplyItems, Treated, NoSsnIn, ApplyRule;
    var combined := st.carry + Tokens(token, st.read);
    SsnFirstAlone(k);
    CombinedTracks(k, s, st.read, st.carry, token);
    ApplyItemsTracks(k, s, st.read + |token|, SsnRule(k), combined);
    FirstRuleTreats(k, s, st, token, j);
    ApplyItemsText(SsnRule(k), combined);
    NoSsnBehindRule(k, Text(combined));
  }

  /** One scan takes nothing of an SSN. */
  lemma {:induction false} ScanTakesNothing(k: CharClass, s: string, rules: seq<Rule>, st: StreamState, token: string,
                                            keep: nat, j: nat)
    requires SsnFirst(k, rules) && RulesSpare(k, rules[1..]) && SsnAt(k, s, j)
    requires Contained(st, j) && Untaken(st, j) && Tracks(k, s, st.read, st.carry)
    requires st.read + |token| <= |s| && s[st.read..st.read + |token|] == token
    ensures Untaken(Scan(rules, st, token, keep), j)
  {
    hide RegexClasses, WellBehaved, QuietRules, Tracks, SsnAt, RulesSpare, RedactItems, ApplyItems, Contained, SsnRule,
         Treated, NoSsnIn, Scan, Sources;
    SsnFirstFirst(k, rules);
    AfterFirst(k, s, st, token, j);
    var after := ApplyItems(rules[0], st.carry + Tokens(token, st.read));
    OthersTakeNothing(k, s, st.read + |token|, rules[1..], after, j);
    ScanTaken(rules, st, token, keep);
  }

  lemma {:induction false} SsnFirstFirst(k: CharClass, rules: seq<Rule>)
    requires SsnFirst(k, rules)
    ensures RegexClasses(k) && rules[0] == SsnRule(k) && WellBehaved(rules[0])
    ensures Quiet(k, Placeholder(rules[0].kind))
    ensures AllWellBehaved(rules[1..]) && QuietRules(k, rules[1..])
  {
  }

  lemma {:induction false} OthersTakeNothing(k: CharClass, s: string, n: nat, rules: seq<Rule>, after: seq<Item>,
                                             j: nat)
    requires RegexClasses(k) && AllWellBehaved(rules) && QuietRules(k, rules) && RulesSpare(k, rules)
    requires SsnAt(k, s, j) && Tracks(k, s, n, after) && Treated(after, n, j) && NoSsnIn(k, Text(after))
    ensures forall x: nat :: x in Sources(after) - Sources(RedactItems(rules, after)) ==> !(j <= x < j + SSN_LENGTH)
  {
    hide RegexClasses, AllWellBehaved, QuietRules, Tracks, SsnAt, NoSsnIn, RedactItems, EndsWith;
    if j < n < j + SSN_LENGTH {
      EndIsOpen(k, s, n, after, j);
      assert Spares(rules, Text(after), n - j);
      RulesKeepEnd(k, s, n, rules, after, j);
      forall x: nat | x in Sources(after) && j <= x < j + SSN_LENGTH ensures x in Sources(RedactItems(rules, after)) {
        SourcesBelow(k, s, n, after, x);
      }
    }
  }

  /** Between scans: the invariant of the stream, and no SSN has lost a character to another rule. */
  ghost predicate UntakenInv(k: CharClass, s: string, st: StreamState) {
    StreamInv(k, s, st) && forall j: nat :: SsnAt(k, s, j) ==> Untaken(st, j)
  }

  lemma {:induction false} ScanUntaken(k: CharClass, s: string, rules: seq<Rule>, st: StreamState, token: string,
                                       keep: nat)
    requires SsnFirst(k, rules) && RulesSpare(k, rules[1..]) && UntakenInv(k, s, st)
    requires st.read + |token| <= |s| && s[st.read..st.read + |token|] == token
    requires keep == CARRY_SIZE || (keep == 0 && st.read + |token| == |s|)
    ensures UntakenInv(k, s, Scan(rules, st, token, keep))
  {
    hide RegexClasses, WellBehaved, QuietRules, Tracks, SsnAt, RulesSpare, RedactItems, Contained, Untaken, Scan,
         ShownInOrder, Accounted;
    forall j: nat | SsnAt(k, s, j) ensures Untaken(Scan(rules, st, token, keep), j) {
      assert Untaken(st, j);
      ScanTakesNothing(k, s, rules, st, token, keep, j);
    }
    hide StreamInv;
    ScanInv(k, s, rules, st, token, keep);
  }

  lemma {:induction false} StreamUntaken(k: CharClass, s: string, rules: seq<Rule>, tokens: seq<string>,
                                         st: StreamState, last: string)
    requires SsnFirst(k, rules) && RulesSpare(k, rules[1..]) && UntakenInv(k, s, st)
    requires Left(s, st, Concat(tokens) + last)
    ensures UntakenInv(k, s, StreamItems(rules, tokens, st)) && Left(s, StreamItems(rules, tokens, st), last)
  {
    hide UntakenInv, Concat, Left, Scan, RegexClasses, QuietRules, WellBehaved, RulesSpare, SsnRule;
    assert AllWellBehaved(rules) && rules != [];
    if tokens == [] {
      NothingLeft(last);
    } else {
      ScanReads(s, rules, st, tokens, last);
      ScanUntaken(k, s, rules, st, tokens[0], CARRY_SIZE);
      StreamUntaken(k, s, rules, tokens[1..], Scan(rules, st, tokens[0], CARRY_SIZE), last);
    }
  }

  /** If the other rules spare the beginnings of SSNs: at every moment of every stream, whatever is still to
      come, no character of an SSN has been shown, and one that has arrived in part is held whole. */
  lemma {:induction false} SparedNeverShownEarly(k: CharClass, rules: seq<Rule>, tokens: seq<string>, rest: string,
                                                 j: nat)
    requires SsnFirst(k, rules) && RulesSpare(k, rules[1..]) && SsnAt(k, Concat(tokens) + rest, j)
    ensures Contained(StreamItems(rules, tokens, START), j) && Untaken(StreamItems(rules, tokens, START), j)
  {
    hide StreamInv, Contained, Untaken, StreamItems, SsnAt, RegexClasses, QuietRules, WellBehaved, RulesSpare;
    var s := Concat(tokens) + rest;
    StartInv(k, s);
    StartUntaken(k, s);
    assert s[0..] == s;
    StreamUntaken(k, s, rules, tokens, START, rest);
    NoSsnShownEarly(k, rules, tokens, rest, j);
  }

  lemma {:induction false} StartUntaken(k: CharClass, s: string)
    requires StreamInv(k, s, START)
    ensures UntakenInv(k, s, START)
  {
  }

  /** And the finished stream shows no character of any SSN, with no exception left. */
  lemma {:induction false} SparedNeverShown(k: CharClass, rules: seq<Rule>, tokens: seq<string>, last: string, j: nat)
    requires SsnFirst(k, rules) && RulesSpare(k, rules[1..]) && SsnAt(k, Concat(tokens) + last, j)
    ensures Untaken(Streamed(rules, tokens, last), j) && Absent(Streamed(rules, tokens, last).shown, j)
  {
    hide StreamInv, Absent, Untaken, StreamItems, Scan, SsnAt, RegexClasses, QuietRules, WellBehaved, RulesSpare;
    var s := Concat(tokens) + last;
    StartInv(k, s);
    StartUntaken(k, s);
    assert s[0..] == s;
    StreamUntaken(k, s, rules, tokens, START, last);
    var before := StreamItems(rules, tokens, START);
    assert s[before.read..before.read + |last|] == last;
    ScanUntaken(k, s, rules, before, last, 0);
    NoSsnShown(k, rules, tokens, last);
  }

  // ---- rules that do not: some SSN does ----

  /** What completes the first m characters of an SSN. */
  function Completion(m: nat): string
    requires m < SSN_LENGTH
  {
    "000-00-0000"[m..]
  }

  lemma {:induction false} Completed(k: CharClass, t: string, m: nat)
    requires k.digit('0') && OpenEnd(k, t, m)
    ensures SsnAt(k, t + Completion(m), |t| - m)
  {
    var s, p := t + Completion(m), |t| - m;
    forall q | p <= q < p + SSN_LENGTH ensures SsnChar(k, q - p, s[q]) {
      assert s[q] == if q < |t| then t[q] else "000-00-0000"[q - p];
    }
  }

  lemma {:induction false} NothingMatched(k: CharClass, t: string)
    requires RegexClasses(k) && WellBehaved(SsnRule(k)) && NoSsnIn(k, t)
    ensures ApplyItems(SsnRule(k), Tokens(t, 0)) == Tokens(t, 0)
  {
    NoSsnFound(k, t);
    assert Text(Tokens(t, 0)) == t;
  }

  lemma {:induction false} TokensTrack(k: CharClass, t: string, m: nat)
    requires RegexClasses(k) && 0 < m <= |t|
    ensures Tracks(k, t, |t|, Tokens(t, 0)) && EndsWith(Tokens(t, 0), |t| - m, |t|) && Text(Tokens(t, 0)) == t
  {
    EmptyTracks(k, t);
    hide RegexClasses, Tracks;
    assert t[0..0 + |t|] == t && [] + Tokens(t, 0) == Tokens(t, 0);
    CombinedTracks(k, t, 0, [], t);
  }

  /** The rules take a character of the end of such a window. */
  lemma {:induction false} EndIsTaken(k: CharClass, rules: seq<Rule>, t: string, m: nat) returns (x: nat)
    requires RegexClasses(k) && AllWellBehaved(rules) && QuietRules(k, rules) && 0 < m <= |t| && !Spares(rules, t, m)
    ensures |t| - m <= x < |t| && x in Sources(Tokens(t, 0)) - Sources(RedactItems(rules, Tokens(t, 0)))
  {
    hide RegexClasses, AllWellBehaved, QuietRules, RedactItems, Spares, Tracks, EndsWith, Sources;
    var items := Tokens(t, 0);
    TokensTrack(k, t, m);
    RulesKeepEnd(k, t, |t|, rules, items, |t| - m);
    x :| |t| - m <= x < |t| && x !in Sources(RedactItems(rules, items));
    SourceOf(items, x);
  }

  /** Scanning such a window takes a character of the SSN it begins. */
  lemma {:induction false} ScanTakes(k: CharClass, rules: seq<Rule>, t: string, m: nat)
    requires SsnFirst(k, rules) && k.digit('0') && NoSsnIn(k, t) && OpenEnd(k, t, m) && !Spares(rules[1..], t, m)
    ensures !Untaken(Scan(rules, START, t, CARRY_SIZE), |t| - m)
  {
    hide RegexClasses, WellBehaved, QuietRules, NoSsnIn, RedactItems, ApplyItems, Spares, SsnRule, Scan, OpenEnd,
         Sources;
    var items := Tokens(t, 0);
    OpenIsShort(k, t, m);
    SsnFirstFirst(k, rules);
    NothingMatched(k, t);
    var x := EndIsTaken(k, rules[1..], t, m);
    assert START.carry + items == items;
    ScanTaken(rules, START, t, CARRY_SIZE);
  }

  lemma {:induction false} TakenStays(rules: seq<Rule>, st: StreamState, token: string, keep: nat, j: nat)
    requires AllWellBehaved(rules) && rules != [] && !Untaken(st, j)
    ensures !Untaken(Scan(rules, st, token, keep), j)
  {
    hide ApplyItems, RedactItems, AllWellBehaved;
    var x: nat :| x in st.taken && j <= x < j + SSN_LENGTH;
    assert x in Scan(rules, st, token, keep).taken;
  }

  lemma {:induction false} NotSparedTakes(k: CharClass, rules: seq<Rule>, t: string, m: nat)
    requires SsnFirst(k, rules) && k.digit('0') && NoSsnIn(k, t) && OpenEnd(k, t, m) && !Spares(rules[1..], t, m)
    ensures var last := Completion(m);
            && SsnAt(k, Concat([t]) + last, |t| - m)
            && !Untaken(Streamed(rules, [t], last), |t| - m)
  {
    hide RegexClasses, WellBehaved, QuietRules, NoSsnIn, SsnAt, Spares, Scan, Untaken, SsnRule, OpenEnd;
    OpenIsShort(k, t, m);
    var last := Completion(m);
    assert Concat([t]) == t by {
      assert [t][1..] == [] && t + Concat([]) == t;
    }
    Completed(k, t, m);
    ScanTakes(k, rules, t, m);
    var st := Scan(rules, START, t, CARRY_SIZE);
    assert StreamItems(rules, [t], START) == StreamItems(rules, [], st) by {
      assert [t][1..] == [];
    }
    assert StreamItems(rules, [], st) == st;
    TakenStays(rules, st, last, 0, |t| - m);
  }

  /** Over all texts and all cuttings, no SSN loses a character to a rule behind the SSN rule exactly if
      these rules spare the beginnings of SSNs. */
  lemma {:induction false} UntakenExactly(k: CharClass, rules: seq<Rule>)
    requires SsnFirst(k, rules) && k.digit('0')
    ensures AllWellBehaved(rules[1..])
    ensures (forall tokens: seq<string>, last: string, j: nat :: SsnAt(k, Concat(tokens) + last, j)
               ==> Untaken(Streamed(rules, tokens, last), j))
            <==> RulesSpare(k, rules[1..])
  {
    hide RegexClasses, WellBehaved, QuietRules, NoSsnIn, SsnAt, Spares, Untaken, SsnRule, OpenEnd, Streamed, Concat,
         Completion;
    SsnFirstFirst(k, rules);
    if t: string, m: nat :| NoSsnIn(k, t) && OpenEnd(k, t, m) && !Spares(rules[1..], t, m) {
      OpenIsShort(k, t, m);
      NotSparedTakes(k, rules, t, m);
      assert !RulesSpare(k, rules[1..]);
    } else {
      assert RulesSpare(k, rules[1..]);
      hide RulesSpare;
      forall tokens: seq<string>, last: string, j: nat | SsnAt(k, Concat(tokens) + last, j)
        ensures Untaken(Streamed(rules, tokens, last), j)
      {
        SparedNeverShown(k, rules, tokens, last, j);
      }
    }
  }

  lemma {:induction false} OpenIsShort(k: CharClass, t: string, m: nat)
    requires OpenEnd(k, t, m)
    ensures 0 < m < SSN_LENGTH && m <= |t|
  {
  }

  /** The e-mail rule does not spare them. */
  lemma {:induction false} AddressNotSpared(k: CharClass, email: Rule)
    requires WellBehaved(email) && TakesAddress(email)
    requires (forall c :: '0' <= c <= '9' ==> k.digit(c)) && !k.word('.')
    ensures AllWellBehaved([email]) && !RulesSpare(k, [email])
  {
    hide SsnAt;
    NoneInAddress(k);
    assert [email][1..] == [];
    assert Span(0, 9) in Hits(email, ADDRESS);
    hide WellBehaved, Hits, OpenEnd, NoSsnIn, TakesAddress;
    assert !EndsBefore(email, ADDRESS, 3);
    assert !Spares([email], ADDRESS, 3);
  }

  lemma {:induction false} NoneInAddress(k: CharClass)
    requires (forall c :: '0' <= c <= '9' ==> k.digit(c)) && !k.word('.')
    ensures NoSsnIn(k, ADDRESS) && OpenEnd(k, ADDRESS, 3)
  {
  }
}
