/** The provider clients that feed the stream, and the stream behind the OpenAI client end to end. */
module Providers {
  import opened Options
  import opened Redaction
  import opened SsnStream
  import opened SsnStreamText
  import opened EventStream

  // ---- openai_client._generator ----

  datatype Choice = Choice(content: string, finished: bool)

  /** One line of the provider's response: nothing after stripping; "[DONE]"; no JSON; a JSON object
      with an optional usage block and an optional first choice; or a line at which an exception
      leaves the loop. */
  datatype Line = Blank | DoneMark | NotJson | Event(usage: Option<Usage>, choice: Option<Choice>) | Fails

  const NO_USAGE := Usage(0, 0)

  function Token(line: Line): string {
    if line.Event? && line.choice.Some? then line.choice.value.content else ""
  }

  function Finishes(line: Line): bool {
    line.Event? && line.choice.Some? && line.choice.value.finished
  }

  /** The last usage block read so far. */
  function UsageAfter(line: Line, before: Usage): Usage {
    if line.Event? && line.usage.Some? then line.usage.value else before
  }

  function TokenChunk(line: Line): seq<Chunk> {
    if Token(line) != "" then [Chunk(Token(line), false, Option.None)] else []
  }

  function DoneChunk(usage: Usage): Chunk {
    Chunk("", true, Option.Some(usage))
  }

  /** The chunks from a line on, and how the iterator ends. */
  function Generated(lines: seq<Line>, lastUsage: Usage): (seq<Chunk>, Ending)
    decreases |lines|
  {
    if lines == [] then ([DoneChunk(lastUsage)], Exhausted)
    else
      var line := lines[0];
      if line.Fails? then ([], Broken)
      else if line.DoneMark? then ([DoneChunk(lastUsage)], Exhausted)
      else
        var usage := UsageAfter(line, lastUsage);
        if Finishes(line) then (TokenChunk(line) + [DoneChunk(usage)], Exhausted)
        else
          var (rest, ending) := Generated(lines[1..], usage);
          (TokenChunk(line) + rest, ending)
  }

  /** What was sent, in front of what is still to come. */
  function Sent(chunks: seq<Chunk>, rest: (seq<Chunk>, Ending)): (seq<Chunk>, Ending) {
    (chunks + rest.0, rest.1)
  }

  predicate GoesOn(line: Line) {
    !line.Fails? && !line.DoneMark? && !Finishes(line)
  }

  lemma {:induction false} GenerateStep(chunks: seq<Chunk>, lines: seq<Line>, i: nat, lastUsage: Usage)
    requires i < |lines| && GoesOn(lines[i])
    ensures Sent(chunks, Generated(lines[i..], lastUsage))
            == Sent(chunks + TokenChunk(lines[i]), Generated(lines[i + 1..], UsageAfter(lines[i], lastUsage)))
  {
    assert lines[i..][1..] == lines[i + 1..];
    var rest := Generated(lines[i + 1..], UsageAfter(lines[i], lastUsage)).0;
    assert chunks + (TokenChunk(lines[i]) + rest) == (chunks + TokenChunk(lines[i])) + rest;
  }

  lemma {:induction false} NothingSentYet(lines: seq<Line>)
    ensures Sent([], Generated(lines[0..], NO_USAGE)) == Generated(lines, NO_USAGE)
  {
    assert lines[0..] == lines;
    assert [] + Generated(lines, NO_USAGE).0 == Generated(lines, NO_USAGE).0;
  }

  lemma {:induction false} GenerateEnds(chunks: seq<Chunk>, lines: seq<Line>, lastUsage: Usage)
    requires lines != [] ==> !GoesOn(lines[0])
    ensures Sent(chunks, Generated(lines, lastUsage))
            == if lines != [] && lines[0].Fails? then (chunks, Broken)
               else if lines == [] || lines[0].DoneMark? then (chunks + [DoneChunk(lastUsage)], Exhausted)
               else (chunks + TokenChunk(lines[0]) + [DoneChunk(UsageAfter(lines[0], lastUsage))], Exhausted)
  {
    assert chunks + [] == chunks;
    if lines != [] {
      var done := [DoneChunk(UsageAfter(lines[0], lastUsage))];
      assert chunks + (TokenChunk(lines[0]) + done) == chunks + TokenChunk(lines[0]) + done;
    }
  }

  method Generate(lines: seq<Line>) returns (chunks: seq<Chunk>, ending: Ending)
    ensures (chunks, ending) == Generated(lines, NO_USAGE)
  {
    hide Generated;
    chunks := [];
    var lastUsage := NO_USAGE;
    NothingSentYet(lines);
    for i := 0 to |lines|
      invariant Sent(chunks, Generated(lines[i..], lastUsage)) == Generated(lines, NO_USAGE)
    {
      var line := lines[i];
      assert chunks + [] == chunks;
      if GoesOn(line) {
        GenerateStep(chunks, lines, i, lastUsage);
      } else {
        GenerateEnds(chunks, lines[i..], lastUsage);
      }
      match line {
        case Blank =>
          continue;
        case NotJson =>
          continue;
        case Fails =>
          return chunks, Broken;
        case DoneMark =>
          return chunks + [DoneChunk(lastUsage)], Exhausted;
        case Event(usage, choice) =>
          if usage.Some? {
            lastUsage := usage.value;
          }
          var token := "";
          if choice.Some? {
            token := choice.value.content;
            if choice.value.finished {
              if token != "" {
                chunks := chunks + [Chunk(token, false, Option.None)];
              }
              return chunks + [DoneChunk(lastUsage)], Exhausted;
            }
          }
          if token != "" {
            chunks := chunks + [Chunk(token, false, Option.None)];
          }
      }
    }
    GenerateEnds(chunks, lines[|lines|..], lastUsage);
    return chunks + [DoneChunk(lastUsage)], Exhausted;
  }

  // ---- what the generator promises ----

  /** The lines the generator reads: up to the one that ends it. */
  function LinesRead(lines: seq<Line>): seq<Line> {
    if lines == [] || lines[0].Fails? || lines[0].DoneMark? then []
    else if Finishes(lines[0]) then [lines[0]]
    else [lines[0]] + LinesRead(lines[1..])
  }

  function LastUsage(lines: seq<Line>, before: Usage): Usage {
    if lines == [] then before else LastUsage(lines[1..], UsageAfter(lines[0], before))
  }

  function TokensOf(lines: seq<Line>): string {
    if lines == [] then "" else Token(lines[0]) + TokensOf(lines[1..])
  }

  ghost predicate TokenChunks(chunks: seq<Chunk>) {
    forall i :: 0 <= i < |chunks| ==> !chunks[i].done && chunks[i].token != ""
  }

  function ChunkText(chunks: seq<Chunk>): string {
    if chunks == [] then "" else chunks[0].token + ChunkText(chunks[1..])
  }

  lemma {:induction false} ChunkTextConcat(a: seq<Chunk>, b: seq<Chunk>)
    ensures ChunkText(a + b) == ChunkText(a) + ChunkText(b)
  {
    if a == [] {
      assert a + b == b;
    } else {
      assert (a + b)[1..] == a[1..] + b;
      ChunkTextConcat(a[1..], b);
    }
  }

  lemma {:induction false} TokenChunkText(line: Line)
    ensures ChunkText(TokenChunk(line)) == Token(line) && TokenChunks(TokenChunk(line))
  {
    assert Token(line) != "" ==> ChunkText(TokenChunk(line)[1..]) == "";
  }

  /** Non-empty token chunks that spell out the content of the lines read; then, unless an exception
      ends the iterator, exactly one done chunk, the last, with the last usage read. */
  lemma {:induction false} GeneratedShape(lines: seq<Line>, before: Usage) returns (tokens: seq<Chunk>)
    ensures var (chunks, ending) := Generated(lines, before);
            && TokenChunks(tokens) && ChunkText(tokens) == TokensOf(LinesRead(lines))
            && chunks == tokens + (if ending == Exhausted then [DoneChunk(LastUsage(LinesRead(lines), before))] else [])
    decreases |lines|
  {
    if lines == [] || lines[0].Fails? || lines[0].DoneMark? {
      tokens := [];
    } else {
      var line := lines[0];
      TokenChunkText(line);
      if Finishes(line) {
        tokens := TokenChunk(line);
        assert LinesRead(lines)[1..] == [];
      } else {
        var rest := GeneratedShape(lines[1..], UsageAfter(line, before));
        tokens := TokenChunk(line) + rest;
        ChunkTextConcat(TokenChunk(line), rest);
        assert LinesRead(lines)[1..] == LinesRead(lines[1..]);
      }
    }
  }

  // ---- AIRequestService._call_gemini_stream ----

  const SLICE: nat := 48

  /** The whole answer in slices, then one done chunk. */
  method GeminiStream(text: string, usage: Usage) returns (chunks: seq<Chunk>)
    ensures |chunks| > 0 && TokenChunks(chunks[..|chunks| - 1])
    ensures ChunkText(chunks[..|chunks| - 1]) == text
    ensures forall i :: 0 <= i < |chunks| ==> |chunks[i].token| <= 48 && (i < |chunks| - 2 ==> |chunks[i].token| == 48)
    ensures chunks[|chunks| - 1] == if text == "" then Chunk("", true, Option.None) else DoneChunk(usage)
  {
    if text == "" {
      return [Chunk("", true, Option.None)];
    }
    chunks := [];
    var i := 0;
    while i < |text|
      invariant 0 <= i <= |text|
      invariant TokenChunks(chunks) && ChunkText(chunks) == text[..i]
      invariant forall j :: 0 <= j < |chunks| ==> |chunks[j].token| <= 48
      invariant forall j :: 0 <= j < |chunks| - 1 ==> |chunks[j].token| == 48
      invariant i < |text| && chunks != [] ==> |chunks[|chunks| - 1].token| == 48
    {
      var next := if i + SLICE < |text| then i + SLICE else |text|;
      var c := Chunk(text[i..next], false, Option.None);
      ChunkTextConcat(chunks, [c]);
      assert ChunkText([c]) == c.token by {
        assert [c][1..] == [];
      }
      assert text[..next] == text[..i] + text[i..next];
      chunks := chunks + [c];
      i := next;
    }
    assert text[..|text|] == text;
    assert (chunks + [DoneChunk(usage)])[..|chunks|] == chunks;
    chunks := chunks + [DoneChunk(usage)];
  }

  // ---- end to end ----

  lemma {:induction false} TokenChunksThenDone(tokens: seq<Chunk>, done: Chunk)
    requires TokenChunks(tokens) && done.done
    ensures FirstDone(tokens + [done]) == Option.Some(done)
    ensures Concat(TokensBefore(tokens + [done])) == ChunkText(tokens)
  {
    var chunks := tokens + [done];
    if tokens == [] {
      assert chunks[0] == done;
    } else {
      assert chunks[1..] == tokens[1..] + [done];
      TokenChunksThenDone(tokens[1..], done);
      assert TokensBefore(chunks)[1..] == TokensBefore(chunks[1..]);
    }
  }

  /** A client answers as promised: token chunks, then one done chunk. When nothing fails, the frames end
      in the one terminal frame; the text shown is the guarded stream of the tokens, flushed at the end;
      the usage in the done frame is charged once if it is positive and never otherwise; and that usage
      is the reported one, if that is positive. */
  ghost predicate Answered(s: Setup, r: Rest, tokens: seq<string>, reported: Option<Usage>)
    requires AllWellBehaved(s.rules)
  {
    && ShownText(r.frames) == StreamedText(s.rules, tokens, "")
    && r.frames != [] && r.frames[|r.frames| - 1].Done?
    && (forall i :: 0 <= i < |r.frames| - 1 ==> !Terminal(r.frames[i]))
    && var usage := r.frames[|r.frames| - 1].usage;
       && r.charges == (if Total(usage) > 0 then [Total(usage)] else [])
       && (reported.Some? && Total(reported.value) > 0 ==> usage == reported.value)
  }

  lemma {:induction false} OpeningShows(frames: seq<Frame>)
    ensures ShownText([Thinking, Text("")] + frames) == ShownText(frames)
  {
    var all := [Thinking, Text("")] + frames;
    assert all[1..] == [Text("")] + frames;
    assert all[1..][1..] == frames;
  }

  lemma {:induction false} DoneIsLast(s: Setup, r: Rest, reachedDone: bool, terminals: seq<Frame>)
    requires WellFormed(s, r, reachedDone, terminals) && !s.completedWriteFails
    requires r.frames != [] && r.frames[|r.frames| - 1].Done?
    ensures forall i :: 0 <= i < |r.frames| - 1 ==> !Terminal(r.frames[i])
  {
    forall i | 0 <= i < |r.frames| - 1 ensures !Terminal(r.frames[i]) {
      assert r.frames[i] == r.frames[..|r.frames| - |terminals|][i];
    }
  }

  lemma {:induction false} OpeningInFront(s: Setup, inner: Rest, r: Rest, done: Chunk, tokens: seq<string>,
                                          text: string, left: string)
    requires AllWellBehaved(s.rules) && StreamText(s.rules, tokens, "", "") == (text, left) && done.token == ""
    requires Completes(s, inner, done, "", text, left)
    requires forall i :: 0 <= i < |inner.frames| - 1 ==> !Terminal(inner.frames[i])
    requires r == Behind([Thinking, Text("")], inner)
    ensures Answered(s, r, tokens, done.usage)
  {
    hide RedactText, StreamText;
    OpeningShows(inner.frames);
    assert left + "" == left;
    assert "" + ShownText(inner.frames) == ShownText(inner.frames);
  }

  lemma {:induction false} ClientAnswers(s: Setup, parts: seq<Chunk>, done: Chunk, ending: Ending)
    requires AllWellBehaved(s.rules) && NoFailures(s)
    requires TokenChunks(parts) && done.done && done.token == ""
    ensures Concat(TokensBefore(parts + [done])) == ChunkText(parts)
    ensures Answered(s, Frames(s, Passed, Iterator(parts + [done], ending)), TokensBefore(parts + [done]), done.usage)
  {
    hide Stream, RedactText, WellFormed, StreamText, Answered, Completes;
    var chunks := parts + [done];
    TokenChunksThenDone(parts, done);
    CompleteStream(s, chunks, ending, "", "", true);
    var terminals := StreamGrammar(s, chunks, ending, "", "", true);
    var inner := Stream(s, chunks, ending, "", "", true);
    var (text, left) := StreamText(s.rules, TokensBefore(chunks), "", "");
    DoneFrameLast(s, inner, done, "", text, left);
    DoneIsLast(s, inner, ReachedDone(s, chunks, true).Some?, terminals);
    OpeningInFront(s, inner, Frames(s, Passed, Iterator(chunks, ending)), done, TokensBefore(chunks), text, left);
  }

  lemma {:induction false} DoneFrameLast(s: Setup, r: Rest, done: Chunk, shown: string, text: string, left: string)
    requires AllWellBehaved(s.rules) && Completes(s, r, done, shown, text, left)
    ensures r.frames != [] && r.frames[|r.frames| - 1].Done?
  {
  }

  /** Behind the OpenAI client, when nothing fails. */
  lemma {:induction false} OpenAiAnswer(s: Setup, lines: seq<Line>) returns (tokens: seq<string>)
    requires AllWellBehaved(s.rules) && NoFailures(s) && Generated(lines, NO_USAGE).1 == Exhausted
    ensures Concat(tokens) == TokensOf(LinesRead(lines))
    ensures var (chunks, ending) := Generated(lines, NO_USAGE);
            Answered(s, Frames(s, Passed, Iterator(chunks, ending)), tokens,
                     Option.Some(LastUsage(LinesRead(lines), NO_USAGE)))
  {
    hide Frames, Answered;
    var (chunks, ending) := Generated(lines, NO_USAGE);
    var parts := GeneratedShape(lines, NO_USAGE);
    tokens := TokensBefore(chunks);
    ClientAnswers(s, parts, DoneChunk(LastUsage(LinesRead(lines), NO_USAGE)), ending);
  }

  /** With the SSN rule alone, whatever the provider sends and however it is cut: the text shown is the
      provider's text with the placeholder in place of spans of SSN shape, every SSN among them. */
  lemma {:induction false} OpenAiAnswerHidesSsns(k: CharClass, s: Setup, lines: seq<Line>) returns (spans: seq<Span>)
    requires RegexClasses(k) && s.rules == [SsnRule(k)]
    requires NoFailures(s) && Generated(lines, NO_USAGE).1 == Exhausted
    ensures AllWellBehaved(s.rules)
    ensures var text := TokensOf(LinesRead(lines));
            var (chunks, ending) := Generated(lines, NO_USAGE);
            var r := Frames(s, Passed, Iterator(chunks, ending));
            && Ordered(spans, 0, |text|) && ShapeSpans(k, text, spans)
            && (forall j: nat :: SsnAt(k, text, j) ==> Span(j, j + SSN_LENGTH) in spans)
            && ShownText(r.frames) == Rebuild(text, 0, spans, Placeholder("SSN"))
  {
    hide Stream, RedactText, SsnAt, RegexClasses, ShapeSpans;
    SsnFirstAlone(k);
    var tokens := OpenAiAnswer(s, lines);
    spans := StreamedSsnText(k, tokens, "");
    assert Concat(tokens) + "" == Concat(tokens);
  }

  // ---- what a line counts for ----

  /** Only an event carries content, usage or an end; a blank line and one that is no JSON are passed over. */
  lemma {:induction false} LineExactly(line: Line, before: Usage)
    ensures Token(line) == match line case Event(_, Some(Choice(content, _))) => content case _ => ""
    ensures UsageAfter(line, before) == match line case Event(Some(usage), _) => usage case _ => before
    ensures GoesOn(line) <==> match line
                              case Blank => true
                              case NotJson => true
                              case Event(_, Some(Choice(_, finished))) => !finished
                              case Event(_, None) => true
                              case DoneMark => false
                              case Fails => false
  {
  }

  /** Of the lines read, the last usage block counts. */
  lemma {:induction false} LastUsageIsLast(lines: seq<Line>, before: Usage)
    ensures if forall i :: 0 <= i < |lines| ==> !(lines[i].Event? && lines[i].usage.Some?)
            then LastUsage(lines, before) == before
            else exists i :: 0 <= i < |lines| && lines[i].Event?
                             && lines[i].usage == Option.Some(LastUsage(lines, before))
                             && forall j :: i < j < |lines| ==> !(lines[j].Event? && lines[j].usage.Some?)
    decreases |lines|
  {
    if lines != [] {
      LastUsageIsLast(lines[1..], UsageAfter(lines[0], before));
      assert forall i :: 0 < i < |lines| ==> lines[i] == lines[1..][i - 1];
      if i :| 0 <= i < |lines[1..]| && lines[1..][i].Event?
              && lines[1..][i].usage == Option.Some(LastUsage(lines, before))
              && forall j :: i < j < |lines[1..]| ==> !(lines[1..][j].Event? && lines[1..][j].usage.Some?) {
        assert lines[i + 1] == lines[1..][i];
        assert forall j :: i + 1 < j < |lines| ==> lines[j] == lines[1..][j - 1];
      }
    }
  }

  /** The lines read are those up to the first that ends the loop, which counts if it is an event. */
  lemma {:induction false} ReadExactly(lines: seq<Line>)
    ensures var n := |LinesRead(lines)|;
            && LinesRead(lines) <= lines && (forall i :: 0 <= i < n - 1 ==> GoesOn(lines[i]))
            && (n > 0 ==> GoesOn(lines[n - 1]) || lines[n - 1].Event?)
            && ((n > 0 && !GoesOn(lines[n - 1])) || n == |lines| || lines[n].Fails? || lines[n].DoneMark?)
    decreases |lines|
  {
    if lines != [] && GoesOn(lines[0]) {
      ReadExactly(lines[1..]);
      assert lines == [lines[0]] + lines[1..];
      var n := |LinesRead(lines)|;
      assert forall i :: 0 < i < |lines| ==> lines[i] == lines[1..][i - 1];
    }
  }
}
