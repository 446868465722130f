/** The streaming answer: provider chunks in, guarded text frames and one charge out. */
module EventStream {
  import opened Options
  import opened Redaction
  import opened SsnStream

  datatype Usage = Usage(prompt: int, eval: int)

  /** {token, done, usage} as every provider client yields it. */
  datatype Chunk = Chunk(token: string, done: bool, usage: Option<Usage>)

  /** How a provider's iterator ends: by itself or with an exception. */
  datatype Ending = Exhausted | Broken

  /** Text is a token frame with done=false, Done the terminal frame with done=true. */
  datatype Frame = Thinking | PreFlightError | Text(token: string) | Done(usage: Usage) | StreamError

  datatype PreFlight = Passed | DomainError | OtherException

  datatype Dispatch = Iterator(chunks: seq<Chunk>, ending: Ending) | NoIterator | DispatchError

  /** What the stream works with, and which of its database writes fail; each is tried at most once. */
  datatype Setup = Setup(rules: seq<Rule>, strip: string -> string, promptText: string,
                         streamingWriteFails: bool, usageLogFails: bool,
                         securityEventFails: bool, completedWriteFails: bool)

  // ---- usage ----

  /** _text_to_tokens. */
  function TextTokens(s: Setup, text: string): nat {
    var n := |s.strip(text)|;
    if n == 0 then 0 else if n / 4 < 1 then 1 else n / 4
  }

  /** _resolve_usage: the provider's counts, or an estimate if they do not add up to more than 0. */
  function ResolveUsage(s: Setup, usage: Option<Usage>, response: string): Usage {
    if usage.Some? && usage.value.prompt + usage.value.eval > 0 then usage.value
    else Usage(TextTokens(s, s.promptText), TextTokens(s, response))
  }

  function Total(u: Usage): int {
    u.prompt + u.eval
  }

  // ---- the stream as a function ----

  /** The frames and charges of what is left of a run. */
  datatype Rest = Rest(frames: seq<Frame>, charges: seq<int>)

  function Behind(frames: seq<Frame>, rest: Rest): Rest {
    Rest(frames + rest.frames, rest.charges)
  }

  /** The done chunk: charge, flush the carry, and the terminal frame. */
  function Finish(s: Setup, c: Chunk, carry: string, shown: string): Rest
    requires AllWellBehaved(s.rules)
  {
    var final := carry + c.token;
    var usage := ResolveUsage(s, c.usage, shown + final);
    if Total(usage) > 0 && s.usageLogFails then Rest([StreamError], [])
    else
      var charges := if Total(usage) > 0 then [Total(usage)] else [];
      if final != "" && RedactCount(s.rules, final) > 0 && s.securityEventFails then Rest([StreamError], charges)
      else
        Rest((if final != "" then [Text(RedactText(s.rules, final))] else [])
             + [Done(usage)]
             + (if s.completedWriteFails then [StreamError] else []),
             charges)
  }

  /** The provider loop, from a carry and the text shown so far. */
  function Stream(s: Setup, chunks: seq<Chunk>, ending: Ending, carry: string, shown: string, first: bool): Rest
    requires AllWellBehaved(s.rules)
    decreases |chunks|
  {
    if chunks == [] then Rest(if ending == Broken then [StreamError] else [], [])
    else
      var c := chunks[0];
      if c.done then Finish(s, c, carry, shown)
      else if c.token == "" then Stream(s, chunks[1..], ending, carry, shown, first)
      else if first && s.streamingWriteFails then Rest([StreamError], [])
      else
        var (safe, newCarry) := RedactStreamChunk(s.rules, c.token, carry);
        Behind(if safe != "" then [Text(safe)] else [],
               Stream(s, chunks[1..], ending, newCarry, shown + safe, false))
  }

  function Frames(s: Setup, pre: PreFlight, d: Dispatch): Rest
    requires AllWellBehaved(s.rules)
  {
    match pre
    case OtherException => Rest([Thinking], [])
    case DomainError => Rest([Thinking, PreFlightError], [])
    case Passed =>
      Behind([Thinking, Text("")],
             match d
             case Iterator(chunks, ending) => Stream(s, chunks, ending, "", "", true)
             case _ => Rest([StreamError], []))
  }

  // ---- the generator ----

  /** The done branch; raised says whether it ends in the except branch. */
  method FinishStream(s: Setup, c: Chunk, carry: string, assistantText: string)
      returns (frames: seq<Frame>, charges: seq<int>, raised: bool)
    requires AllWellBehaved(s.rules)
    ensures Rest(frames + (if raised then [StreamError] else []), charges) == Finish(s, c, carry, assistantText)
  {
    frames, charges := [], [];
    var finalToken := carry + c.token;
    var usage := ResolveUsage(s, c.usage, assistantText + finalToken);
    if Total(usage) > 0 {
      if s.usageLogFails {
        return frames, charges, true;
      }
      charges := [Total(usage)];
    }
    if finalToken != "" {
      var redacted := Redact(s.rules, finalToken);
      if redacted.count > 0 && s.securityEventFails {
        return frames, charges, true;
      }
      frames := [Text(redacted.text)];
    }
    frames := frames + [Done(usage)];
    raised := s.completedWriteFails;
  }

  lemma {:induction false} StreamStep(s: Setup, chunks: seq<Chunk>, ending: Ending, carry: string, shown: string,
                                      first: bool)
    requires AllWellBehaved(s.rules) && chunks != []
    ensures var c := chunks[0];
            var all := Stream(s, chunks, ending, carry, shown, first);
            && (c.done ==> all == Finish(s, c, carry, shown))
            && (!c.done && c.token == "" ==> all == Stream(s, chunks[1..], ending, carry, shown, first))
            && (!c.done && c.token != "" && first && s.streamingWriteFails ==> all == Rest([StreamError], []))
            && (!c.done && c.token != "" && !(first && s.streamingWriteFails) ==>
                  var (safe, newCarry) := RedactStreamChunk(s.rules, c.token, carry);
                  all == Behind(if safe != "" then [Text(safe)] else [],
                                Stream(s, chunks[1..], ending, newCarry, shown + safe, false)))
  {
  }

  lemma {:induction false} BehindTwice(a: seq<Frame>, b: seq<Frame>, rest: Rest)
    ensures Behind(a, Behind(b, rest)) == Behind(a + b, rest)
    ensures Behind(a, Behind([], rest)) == Behind(a, rest) && Behind([], rest) == rest
  {
  }

  /** The try block of _event_stream behind a dispatched iterator. */
  method StreamChunks(s: Setup, chunks: seq<Chunk>, ending: Ending)
      returns (frames: seq<Frame>, charges: seq<int>, raised: bool)
    requires AllWellBehaved(s.rules)
    ensures Rest(frames + (if raised then [StreamError] else []), charges) == Stream(s, chunks, ending, "", "", true)
  {
    hide Stream, Finish, RedactStreamChunk;
    frames, charges := [], [];
    var carry, assistantText, firstToken := "", "", true;
    assert chunks[0..] == chunks;
    ghost var all := Stream(s, chunks, ending, "", "", true);
    for i := 0 to |chunks|
      invariant all == Behind(frames, Stream(s, chunks[i..], ending, carry, assistantText, firstToken))
    {
      var c := chunks[i];
      StreamStep(s, chunks[i..], ending, carry, assistantText, firstToken);
      assert chunks[i..][1..] == chunks[i + 1..];
      if c.token != "" && !c.done {
        if firstToken {
          if s.streamingWriteFails {
            return frames, [], true;
          }
          firstToken := false;
        }
        var (safe, newCarry) := RedactStreamChunk(s.rules, c.token, carry);
        carry := newCarry;
        assistantText := assistantText + safe;
        BehindTwice(frames, [Text(safe)], Stream(s, chunks[i + 1..], ending, carry, assistantText, false));
        if safe != "" {
          frames := frames + [Text(safe)];
        }
      }
      if c.done {
        var last, charged, failed := FinishStream(s, c, carry, assistantText);
        return frames + last, charged, failed;
      }
    }
    NoChunks(s, ending, carry, assistantText, firstToken);
    raised := ending == Broken;
  }

  lemma {:induction false} NoChunks(s: Setup, ending: Ending, carry: string, shown: string, first: bool)
    requires AllWellBehaved(s.rules)
    ensures Stream(s, [], ending, carry, shown, first) == Rest(if ending == Broken then [StreamError] else [], [])
  {
  }

  /** _event_stream. */
  method RunStream(s: Setup, pre: PreFlight, d: Dispatch) returns (frames: seq<Frame>, charges: seq<int>)
    requires AllWellBehaved(s.rules)
    ensures Rest(frames, charges) == Frames(s, pre, d)
  {
    hide Stream;
    frames, charges := [Thinking], [];
    if pre == OtherException {
      return;
    }
    if pre == DomainError {
      frames := frames + [PreFlightError];
      return;
    }
    frames := frames + [Text("")];
    var raised := true;
    if d.Iterator? {
      var sent;
      sent, charges, raised := StreamChunks(s, d.chunks, d.ending);
      frames := frames + sent;
    }
    if raised {
      frames := frames + [StreamError];
    }
  }

  // ---- frame grammar and charges ----

  ghost predicate TextFrames(frames: seq<Frame>) {
    forall i :: 0 <= i < |frames| ==> frames[i].Text? && frames[i].token != ""
  }

  /** The end of a run behind its opening frames: non-empty text frames, then the terminal frames. */
  ghost predicate Ends(frames: seq<Frame>, terminals: seq<Frame>) {
    && |terminals| <= |frames|
    && TextFrames(frames[..|frames| - |terminals|])
    && frames[|frames| - |terminals|..] == terminals
  }

  /** The chunk that ends the loop, if the run reaches it. */
  function ReachedDone(s: Setup, chunks: seq<Chunk>, first: bool): Option<Chunk>
    decreases |chunks|
  {
    if chunks == [] then None
    else if chunks[0].done then Some(chunks[0])
    else if chunks[0].token == "" then ReachedDone(s, chunks[1..], first)
    else if first && s.streamingWriteFails then None
    else ReachedDone(s, chunks[1..], false)
  }

  lemma {:induction false} SpliceAllNotEmpty(s: string, from: nat, spans: seq<Span>, mark: string)
    requires Ordered(spans, from, |s|) && s != "" && mark != ""
    ensures SpliceAll(s, from, spans, mark) != ""
    decreases spans
  {
  }

  lemma {:induction false} RedactNotEmpty(rules: seq<Rule>, text: string)
    requires AllWellBehaved(rules) && text != ""
    ensures RedactText(rules, text) != ""
  {
    if rules != [] {
      AcceptedOrdered(rules[0], text, rules[0].find(text), 0, |text|);
      SpliceAllNotEmpty(text, 0, Hits(rules[0], text), Placeholder(rules[0].kind));
      RedactNotEmpty(rules[1..], ApplyRule(rules[0], text));
    }
  }

  ghost predicate Terminal(f: Frame) {
    f.Done? || f.StreamError?
  }

  /** The frames and the charge of a run of the provider loop: non-empty text frames, then at most two
      terminal frames; two of them exactly if the done frame was sent and the status write behind it
      failed. A done frame goes with a charge of its usage, if that is positive. */
  ghost predicate WellFormed(s: Setup, r: Rest, reachedDone: bool, terminals: seq<Frame>) {
    && Ends(r.frames, terminals) && |r.charges| <= 1
    && |terminals| <= 2 && (forall i :: 0 <= i < |terminals| ==> Terminal(terminals[i]))
    && (|terminals| == 2 <==> terminals != [] && terminals[0].Done? && s.completedWriteFails)
    && (reachedDone ==> terminals != [])
    && (terminals != [] && terminals[0].Done? ==>
          && reachedDone
          && r.charges == if Total(terminals[0].usage) > 0 then [Total(terminals[0].usage)] else [])
  }

  lemma {:induction false} TextInFront(s: Setup, frames: seq<Frame>, rest: Rest, reachedDone: bool,
                                       terminals: seq<Frame>)
    requires TextFrames(frames) && WellFormed(s, rest, reachedDone, terminals)
    ensures WellFormed(s, Behind(frames, rest), reachedDone, terminals)
  {
    var all := frames + rest.frames;
    var n := |rest.frames| - |terminals|;
    assert all[..|all| - |terminals|] == frames + rest.frames[..n];
    assert all[|all| - |terminals|..] == rest.frames[n..];
  }

  lemma {:induction false} OnlyError(s: Setup, charges: seq<int>)
    requires |charges| <= 1
    ensures WellFormed(s, Rest([StreamError], charges), true, [StreamError])
  {
    assert [StreamError][..0] == [] && [StreamError][0..] == [StreamError];
  }

  lemma {:induction false} OnlyDone(s: Setup, usage: Usage) returns (terminals: seq<Frame>)
    ensures terminals == [Done(usage)] + if s.completedWriteFails then [StreamError] else []
    ensures WellFormed(s, Rest(terminals, if Total(usage) > 0 then [Total(usage)] else []), true, terminals)
  {
    terminals := [Done(usage)] + if s.completedWriteFails then [StreamError] else [];
    assert terminals[..0] == [] && terminals[0..] == terminals;
  }

  lemma {:induction false} FinishGrammar(s: Setup, c: Chunk, carry: string,
                                         shown: string) returns (terminals: seq<Frame>)
    requires AllWellBehaved(s.rules)
    ensures WellFormed(s, Finish(s, c, carry, shown), true, terminals)
    ensures !s.usageLogFails && !s.securityEventFails ==>
              terminals != [] && terminals[0] == Done(ResolveUsage(s, c.usage, shown + (carry + c.token)))
  {
    hide RedactText, RedactCount, ResolveUsage, WellFormed;
    var final := carry + c.token;
    var usage := ResolveUsage(s, c.usage, shown + final);
    var r := Finish(s, c, carry, shown);
    if r.frames == [StreamError] {
      terminals := [StreamError];
      OnlyError(s, r.charges);
    } else {
      if final != "" {
        RedactNotEmpty(s.rules, final);
      }
      terminals := OnlyDone(s, usage);
      var text := if final != "" then [Text(RedactText(s.rules, final))] else [];
      var rest := Rest(terminals, if Total(usage) > 0 then [Total(usage)] else []);
      TextInFront(s, text, rest, true, terminals);
      assert r.frames == text + terminals;
    }
  }

  lemma {:induction false} StreamGrammar(s: Setup, chunks: seq<Chunk>, ending: Ending, carry: string, shown: string,
                                         first: bool)
      returns (terminals: seq<Frame>)
    requires AllWellBehaved(s.rules)
    ensures WellFormed(s, Stream(s, chunks, ending, carry, shown, first), ReachedDone(s, chunks, first).Some?,
                       terminals)
    decreases |chunks|
  {
    hide Finish, RedactStreamChunk;
    if chunks == [] {
      terminals := if ending == Broken then [StreamError] else [];
      assert terminals[..0] == [];
    } else {
      var c := chunks[0];
      StreamStep(s, chunks, ending, carry, shown, first);
      hide Stream;
      if c.done {
        terminals := FinishGrammar(s, c, carry, shown);
      } else if c.token == "" {
        terminals := StreamGrammar(s, chunks[1..], ending, carry, shown, first);
      } else if first && s.streamingWriteFails {
        terminals := [StreamError];
        assert terminals[..0] == [];
      } else {
        hide WellFormed;
        var (safe, newCarry) := RedactStreamChunk(s.rules, c.token, carry);
        terminals := StreamGrammar(s, chunks[1..], ending, newCarry, shown + safe, false);
        TextInFront(s, if safe != "" then [Text(safe)] else [],
                    Stream(s, chunks[1..], ending, newCarry, shown + safe, false),
                    ReachedDone(s, chunks[1..], false).Some?, terminals);
      }
    }
  }

  /** Every run: "thinking", then nothing more if the pre-flight fails with an exception that is no
      domain error, or one error frame, or an empty token frame, text frames and terminal frames. */
  lemma {:induction false} FrameGrammar(s: Setup, pre: PreFlight, d: Dispatch) returns (terminals: seq<Frame>)
    requires AllWellBehaved(s.rules)
    ensures var r := Frames(s, pre, d);
            match pre
            case OtherException => r == Rest([Thinking], [])
            case DomainError => r == Rest([Thinking, PreFlightError], [])
            case Passed =>
              && r.frames[..2] == [Thinking, Text("")]
              && WellFormed(s, Rest(r.frames[2..], r.charges),
                            d.Iterator? && ReachedDone(s, d.chunks, true).Some?, terminals)
              && (!s.completedWriteFails ==> |terminals| <= 1)
  {
    hide Stream;
    terminals := [];
    if pre == Passed {
      var r := Frames(s, pre, d);
      if d.Iterator? {
        terminals := StreamGrammar(s, d.chunks, d.ending, "", "", true);
        assert r.frames[2..] == Stream(s, d.chunks, d.ending, "", "", true).frames;
      } else {
        terminals := [StreamError];
        assert r.frames[2..] == [StreamError];
        assert [StreamError][..0] == [];
      }
    }
  }

  // ---- the text shown ----

  /** The text of all token frames. */
  function ShownText(frames: seq<Frame>): string {
    if frames == [] then ""
    else (if frames[0].Text? then frames[0].token else "") + ShownText(frames[1..])
  }

  /** The tokens the loop scans: those of the chunks before the first done chunk. */
  function TokensBefore(chunks: seq<Chunk>): seq<string> {
    if chunks == [] || chunks[0].done then []
    else if chunks[0].token == "" then TokensBefore(chunks[1..])
    else [chunks[0].token] + TokensBefore(chunks[1..])
  }

  function FirstDone(chunks: seq<Chunk>): Option<Chunk> {
    if chunks == [] then None else if chunks[0].done then Some(chunks[0]) else FirstDone(chunks[1..])
  }

  ghost predicate NoFailures(s: Setup) {
    !s.streamingWriteFails && !s.usageLogFails && !s.securityEventFails && !s.completedWriteFails
  }

  /** shown + the frames of r: the guarded stream of the tokens with its last flush; then the done
      frame, and one charge of its usage if that is positive. */
  ghost predicate Completes(s: Setup, r: Rest, done: Chunk, shown: string, text: string, left: string)
    requires AllWellBehaved(s.rules)
  {
    var usage := ResolveUsage(s, done.usage, text + (left + done.token));
    && shown + ShownText(r.frames) == text + RedactText(s.rules, left + done.token)
    && r.frames != [] && r.frames[|r.frames| - 1] == Done(usage)
    && r.charges == if Total(usage) > 0 then [Total(usage)] else []
  }

  lemma {:induction false} CompletesBehind(s: Setup, r: Rest, done: Chunk, shown: string, safe: string, text: string,
                                           left: string)
    requires AllWellBehaved(s.rules) && Completes(s, r, done, shown + safe, text, left)
    ensures Completes(s, Behind(if safe != "" then [Text(safe)] else [], r), done, shown, text, left)
  {
    hide RedactText, ResolveUsage;
    var front := if safe != "" then [Text(safe)] else [];
    ShownTextInFront(safe, r.frames);
    assert shown + (safe + ShownText(r.frames)) == (shown + safe) + ShownText(r.frames);
    assert (front + r.frames)[|front + r.frames| - 1] == r.frames[|r.frames| - 1];
  }

  /** A run that reaches its done chunk without failures shows the guarded stream of the tokens, and
      charges the resolved usage once, if it is positive. */
  lemma {:induction false} CompleteStream(s: Setup, chunks: seq<Chunk>, ending: Ending, carry: string, shown: string,
                                          first: bool)
    requires AllWellBehaved(s.rules) && NoFailures(s) && FirstDone(chunks).Some?
    ensures var (text, left) := StreamText(s.rules, TokensBefore(chunks), shown, carry);
            Completes(s, Stream(s, chunks, ending, carry, shown, first), FirstDone(chunks).value, shown, text, left)
    decreases |chunks|
  {
    hide RedactText, Completes, RedactStreamChunk;
    var c := chunks[0];
    StreamStep(s, chunks, ending, carry, shown, first);
    hide Stream;
    if c.done {
      FinishShows(s, c, carry, shown);
    } else if c.token == "" {
      CompleteStream(s, chunks[1..], ending, carry, shown, first);
    } else {
      var (safe, newCarry) := RedactStreamChunk(s.rules, c.token, carry);
      CompleteStream(s, chunks[1..], ending, newCarry, shown + safe, false);
      assert TokensBefore(chunks)[1..] == TokensBefore(chunks[1..]);
      var (text, left) := StreamText(s.rules, TokensBefore(chunks[1..]), shown + safe, newCarry);
      CompletesBehind(s, Stream(s, chunks[1..], ending, newCarry, shown + safe, false),
                      FirstDone(chunks).value, shown, safe, text, left);
    }
  }

  lemma {:induction false} ShownTextInFront(safe: string, frames: seq<Frame>)
    ensures ShownText((if safe != "" then [Text(safe)] else []) + frames) == safe + ShownText(frames)
  {
    if safe == "" {
      assert [] + frames == frames;
    } else {
      assert ([Text(safe)] + frames)[1..] == frames;
    }
  }

  lemma {:induction false} FinishShows(s: Setup, c: Chunk, carry: string, shown: string)
    requires AllWellBehaved(s.rules) && NoFailures(s)
    ensures Completes(s, Finish(s, c, carry, shown), c, shown, shown, carry)
  {
    var final := carry + c.token;
    var usage := ResolveUsage(s, c.usage, shown + final);
    assert ShownText([Done(usage)]) == "" by {
      assert [Done(usage)][1..] == [];
    }
    ShownTextInFront(RedactText(s.rules, final), [Done(usage)]);
    if final == "" {
      RedactEmptyOrNot(s.rules);
    } else {
      RedactNotEmpty(s.rules, final);
    }
  }

  /** Nothing can be matched in an empty text. */
  lemma {:induction false} RedactEmptyOrNot(rules: seq<Rule>)
    requires AllWellBehaved(rules)
    ensures RedactText(rules, "") == ""
  {
    if rules != [] {
      AcceptedOrdered(rules[0], "", rules[0].find(""), 0, 0);
      assert ApplyRule(rules[0], "") == "";
      RedactEmptyOrNot(rules[1..]);
    }
  }

  /** Each scan moves text from the carry to the client and changes nothing but what it redacts. */
  lemma {:induction false} ScanConserves(rules: seq<Rule>, chunk: string, carry: string)
    requires AllWellBehaved(rules)
    ensures var (safe, newCarry) := RedactStreamChunk(rules, chunk, carry);
            && safe + newCarry == RedactText(rules, carry + chunk)
            && |newCarry| <= 30 && (safe != "" ==> |newCarry| == 30)
  {
  }

  /** No scan of a stream finds anything to replace. */
  ghost predicate NothingRedacted(rules: seq<Rule>, tokens: seq<string>, carry: string)
    requires AllWellBehaved(rules)
    decreases |tokens|
  {
    tokens == []
    || (RedactText(rules, carry + tokens[0]) == carry + tokens[0]
        && NothingRedacted(rules, tokens[1..], RedactStreamChunk(rules, tokens[0], carry).1))
  }

  lemma {:induction false} Regroup(shown: string, carry: string, token: string, rest: string, safe: string,
                                   newCarry: string)
    requires safe + newCarry == carry + token
    ensures (shown + safe) + newCarry + rest == shown + carry + (token + rest)
  {
    assert (shown + safe) + newCarry == shown + (safe + newCarry);
  }

  /** When nothing is redacted, what is shown and what is held back is exactly what was received. */
  lemma {:induction false} NothingLost(rules: seq<Rule>, tokens: seq<string>, shown: string, carry: string)
    requires AllWellBehaved(rules) && NothingRedacted(rules, tokens, carry)
    ensures var (text, left) := StreamText(rules, tokens, shown, carry);
            text + left == shown + carry + Concat(tokens)
    decreases |tokens|
  {
    hide RedactText, AllWellBehaved;
    if tokens == [] {
      assert shown + carry + "" == shown + carry;
    } else {
      var (safe, newCarry) := RedactStreamChunk(rules, tokens[0], carry);
      ScanConserves(rules, tokens[0], carry);
      hide RedactStreamChunk;
      NothingLost(rules, tokens[1..], shown + safe, newCarry);
      Regroup(shown, carry, tokens[0], Concat(tokens[1..]), safe, newCarry);
    }
  }

  // ---- what is charged without a report, and when a run fails ----

  /** An estimate: no token for a blank text, one for a short one, and else a quarter of its length. */
  lemma {:induction false} EstimateExactly(s: Setup, text: string)
    ensures var n, t := |s.strip(text)|, TextTokens(s, text);
            && (n == 0 ==> t == 0) && (0 < n < 4 ==> t == 1) && (n >= 4 ==> 4 * t <= n < 4 * t + 4)
  {
  }

  /** The usage of a run: what the provider reports if that adds up to more than nothing, and else the
      estimates of the prompt and of the whole answer. */
  lemma {:induction false} UsageExactly(s: Setup, usage: Option<Usage>, response: string)
    ensures var u := ResolveUsage(s, usage, response);
            if usage.Some? && usage.value.prompt + usage.value.eval > 0 then u == usage.value
            else u.prompt == TextTokens(s, s.promptText) && u.eval == TextTokens(s, response)
  {
  }

  /** A run without failures whose done chunk reports nothing is charged by the estimates of its prompt and
      its answer, and by at least one token unless both are blank. */
  lemma {:induction false} EstimatedCharge(s: Setup, chunks: seq<Chunk>, ending: Ending)
    requires AllWellBehaved(s.rules) && NoFailures(s) && FirstDone(chunks).Some?
    requires FirstDone(chunks).value.usage.Some? ==>
               FirstDone(chunks).value.usage.value.prompt + FirstDone(chunks).value.usage.value.eval <= 0
    ensures var (text, left) := StreamText(s.rules, TokensBefore(chunks), "", "");
            var answer := text + (left + FirstDone(chunks).value.token);
            var charges := Stream(s, chunks, ending, "", "", true).charges;
            if s.strip(s.promptText) == "" && s.strip(answer) == "" then charges == []
            else |charges| == 1 && charges[0] == TextTokens(s, s.promptText) + TextTokens(s, answer) > 0
  {
    hide Stream, StreamText, RedactText, TokensBefore, FirstDone;
    CompleteStream(s, chunks, ending, "", "", true);
    var (text, left) := StreamText(s.rules, TokensBefore(chunks), "", "");
    var answer := text + (left + FirstDone(chunks).value.token);
    EstimateExactly(s, s.promptText);
    EstimateExactly(s, answer);
    UsageExactly(s, FirstDone(chunks).value.usage, answer);
  }

  /** The done chunk ends in an exception: writing the usage, the security event or the last status fails. */
  ghost predicate DoneFails(s: Setup, usage: Usage, final: string)
    requires AllWellBehaved(s.rules)
  {
    || (usage.prompt + usage.eval > 0 && s.usageLogFails)
    || (final != "" && RedactCount(s.rules, final) > 0 && s.securityEventFails)
    || s.completedWriteFails
  }

  /** The loop ends in an exception: the first status write fails, the provider's iterator breaks off before a
      done chunk, or the done chunk fails. */
  ghost predicate LoopFails(s: Setup, chunks: seq<Chunk>, ending: Ending, carry: string, shown: string, first: bool)
    requires AllWellBehaved(s.rules)
  {
    if first && s.streamingWriteFails && TokensBefore(chunks) != [] then true
    else
      match FirstDone(chunks)
      case None => ending == Broken
      case Some(c) =>
        var (text, left) := StreamText(s.rules, TokensBefore(chunks), shown, carry);
        DoneFails(s, ResolveUsage(s, c.usage, text + (left + c.token)), left + c.token)
  }

  lemma {:induction false} FinishFails(s: Setup, c: Chunk, carry: string, shown: string)
    requires AllWellBehaved(s.rules)
    ensures StreamError in Finish(s, c, carry, shown).frames
            <==> DoneFails(s, ResolveUsage(s, c.usage, shown + (carry + c.token)), carry + c.token)
  {
    hide RedactText, RedactCount, ResolveUsage;
  }

  lemma {:induction false} StreamFails(s: Setup, chunks: seq<Chunk>, ending: Ending, carry: string, shown: string,
                                       first: bool)
    requires AllWellBehaved(s.rules)
    ensures StreamError in Stream(s, chunks, ending, carry, shown, first).frames
            <==> LoopFails(s, chunks, ending, carry, shown, first)
    decreases |chunks|
  {
    hide RedactText, RedactStreamChunk, Finish, DoneFails;
    if chunks != [] {
      var c := chunks[0];
      StreamStep(s, chunks, ending, carry, shown, first);
      hide Stream;
      if c.done {
        FinishFails(s, c, carry, shown);
      } else if c.token == "" {
        StreamFails(s, chunks[1..], ending, carry, shown, first);
      } else if !(first && s.streamingWriteFails) {
        var (safe, newCarry) := RedactStreamChunk(s.rules, c.token, carry);
        StreamFails(s, chunks[1..], ending, newCarry, shown + safe, false);
        assert TokensBefore(chunks)[1..] == TokensBefore(chunks[1..]);
      }
    }
  }

  /** A run that passes its pre-flight sends the error frame exactly if it meets an exception: no provider is
      found, dispatching fails, or the loop does. */
  lemma {:induction false} ErrorExactly(s: Setup, pre: PreFlight, d: Dispatch)
    requires AllWellBehaved(s.rules)
    ensures StreamError in Frames(s, pre, d).frames
            <==> pre == Passed && (d.Iterator? ==> LoopFails(s, d.chunks, d.ending, "", "", true))
    ensures PreFlightError in Frames(s, pre, d).frames <==> pre == DomainError
    ensures !d.Iterator? ==> Frames(s, pre, d).charges == []
  {
    if d.Iterator? {
      StreamFails(s, d.chunks, d.ending, "", "", true);
      var terminals := StreamGrammar(s, d.chunks, d.ending, "", "", true);
      var frames := Stream(s, d.chunks, d.ending, "", "", true).frames;
      NoPreFlightError(frames, terminals);
    }
    hide Stream, LoopFails;
  }

  lemma {:induction false} NoPreFlightError(frames: seq<Frame>, terminals: seq<Frame>)
    requires Ends(frames, terminals) && forall i :: 0 <= i < |terminals| ==> Terminal(terminals[i])
    ensures PreFlightError !in frames
  {
    var n := |frames| - |terminals|;
    assert forall i :: 0 <= i < n ==> frames[i] == frames[..n][i];
    assert forall i :: n <= i < |frames| ==> frames[i] == frames[n..][i - n];
  }

  /** What is charged if writing fails: nothing without a written usage row, however the run ends. */
  lemma {:induction false} ChargedExactly(s: Setup, c: Chunk, carry: string, shown: string)
    requires AllWellBehaved(s.rules)
    ensures var u := ResolveUsage(s, c.usage, shown + (carry + c.token));
            Finish(s, c, carry, shown).charges
            == if u.prompt + u.eval > 0 && !s.usageLogFails then [u.prompt + u.eval] else []
  {
    hide RedactText, RedactCount, ResolveUsage;
  }
}
