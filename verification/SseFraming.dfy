/** Server-sent events: the frames the gateway writes, and the two client loops that read them, one
    from network chunks and one byte by byte. A simplified form of section 9.2.6 of the WHATWG HTML
    Living Standard: lines end in "\n", an event ends in a blank line, only "data: " lines count. */
module SseFraming {
  import opened Options

  const DATA := "data: "

  /** AIRequestService._sse_frame, for a payload already rendered as JSON text. */
  function Frame(payload: string): string {
    DATA + payload + "\n\n"
  }

  function Frames(payloads: seq<string>): string {
    if payloads == [] then "" else Frame(payloads[0]) + Frames(payloads[1..])
  }

  function Concat(chunks: seq<string>): string {
    if chunks == [] then "" else chunks[0] + Concat(chunks[1..])
  }

  /** split("\n\n"): leftmost separators first, none overlapping. */
  function SplitEvents(s: string): (parts: seq<string>)
    ensures parts != []
  {
    if |s| < 2 then [s]
    else if s[0] == '\n' && s[1] == '\n' then [""] + SplitEvents(s[2..])
    else
      var parts := SplitEvents(s[1..]);
      [[s[0]] + parts[0]] + parts[1..]
  }

  function Init<T>(s: seq<T>): seq<T>
    requires s != []
  {
    s[..|s| - 1]
  }

  function Last<T>(s: seq<T>): T
    requires s != []
  {
    s[|s| - 1]
  }

  lemma {:induction false} UnsplitIsWhole(s: string)
    ensures |SplitEvents(s)| == 1 ==> SplitEvents(s) == [s]
  {
    if |s| >= 2 && !(s[0] == '\n' && s[1] == '\n') {
      UnsplitIsWhole(s[1..]);
      assert s == [s[0]] + s[1..];
    }
  }

  lemma {:induction false} SplitUnfold(s: string)
    ensures |s| < 2 ==> SplitEvents(s) == [s]
    ensures |s| >= 2 && s[0] == '\n' && s[1] == '\n' ==> SplitEvents(s) == [""] + SplitEvents(s[2..])
    ensures |s| >= 2 && !(s[0] == '\n' && s[1] == '\n')
            ==> SplitEvents(s) == [[s[0]] + SplitEvents(s[1..])[0]] + SplitEvents(s[1..])[1..]
  {
  }

  lemma {:induction false} SplitConcatBreak(a: string, b: string)
    requires |a| >= 2 && a[0] == '\n' && a[1] == '\n'
    requires var rest := SplitEvents(a[2..]); SplitEvents(a[2..] + b) == Init(rest) + SplitEvents(Last(rest) + b)
    ensures SplitEvents(a + b) == Init(SplitEvents(a)) + SplitEvents(Last(SplitEvents(a)) + b)
  {
    hide SplitEvents;
    SplitUnfold(a);
    SplitUnfold(a + b);
    assert (a + b)[2..] == a[2..] + b;
    assert Init(SplitEvents(a)) == [""] + Init(SplitEvents(a[2..]));
  }

  lemma {:induction false} SplitConcatCons(a: string, b: string)
    requires |a| >= 2 && !(a[0] == '\n' && a[1] == '\n')
    requires var rest := SplitEvents(a[1..]); SplitEvents(a[1..] + b) == Init(rest) + SplitEvents(Last(rest) + b)
    ensures SplitEvents(a + b) == Init(SplitEvents(a)) + SplitEvents(Last(SplitEvents(a)) + b)
  {
    hide SplitEvents;
    var parts, rest := SplitEvents(a), SplitEvents(a[1..]);
    SplitUnfold(a);
    SplitUnfold(a + b);
    assert (a + b)[1..] == a[1..] + b;
    if |rest| == 1 {
      UnsplitIsWhole(a);
      assert Init(parts) == [];
    } else {
      var more := SplitEvents(Last(rest) + b);
      assert (Init(rest) + more)[0] == rest[0];
      assert (Init(rest) + more)[1..] == Init(rest)[1..] + more;
      assert Init(parts) == [[a[0]] + rest[0]] + Init(rest)[1..];
    }
  }

  /** Where a text is cut does not matter: complete events of the first part are final, and its
      tail is read together with the second part. */
  lemma {:induction false} SplitConcat(a: string, b: string)
    ensures SplitEvents(a + b) == Init(SplitEvents(a)) + SplitEvents(Last(SplitEvents(a)) + b)
  {
    hide SplitEvents;
    if |a| < 2 {
      SplitUnfold(a);
      assert Init(SplitEvents(a)) == [];
    } else if a[0] == '\n' && a[1] == '\n' {
      SplitConcat(a[2..], b);
      SplitConcatBreak(a, b);
    } else {
      SplitConcat(a[1..], b);
      SplitConcatCons(a, b);
    }
  }

  lemma {:induction false} TailUnsplit(s: string)
    ensures SplitEvents(Last(SplitEvents(s))) == [Last(SplitEvents(s))]
  {
    if |s| >= 2 {
      if s[0] == '\n' && s[1] == '\n' {
        TailUnsplit(s[2..]);
      } else {
        TailUnsplit(s[1..]);
        UnsplitIsWhole(s);
        UnsplitIsWhole(s[1..]);
      }
    }
  }

  /** The read loop of AIChat._doSend: append, split, keep the incomplete tail. */
  method ReadChunks(chunks: seq<string>) returns (received: seq<string>, buffer: string)
    ensures received == Init(SplitEvents(Concat(chunks)))
    ensures buffer == Last(SplitEvents(Concat(chunks)))
  {
    hide SplitEvents;
    received, buffer := [], "";
    SplitUnfold("");
    assert chunks[0..] == chunks;
    assert "" + Concat(chunks) == Concat(chunks);
    for i := 0 to |chunks|
      invariant SplitEvents(Concat(chunks)) == received + SplitEvents(buffer + Concat(chunks[i..]))
      invariant SplitEvents(buffer) == [buffer]
    {
      assert chunks[i..][1..] == chunks[i + 1..];
      ghost var later := Concat(chunks[i + 1..]);
      assert buffer + (chunks[i] + later) == (buffer + chunks[i]) + later;
      buffer := buffer + chunks[i];
      SplitConcat(buffer, later);
      TailUnsplit(buffer);
      var events := SplitEvents(buffer);
      buffer := events[|events| - 1];
      events := events[..|events| - 1];
      received := received + events;
    }
    assert buffer + "" == buffer;
    assert Init(received + [buffer]) == received;
  }

  // ---- the byte-at-a-time loop ----

  /** Where the first blank line starts. */
  function FindBreak(s: string): (i: Option<nat>)
    ensures i.Some? ==> i.value + 2 <= |s| && s[i.value] == '\n' && s[i.value + 1] == '\n'
  {
    if |s| < 2 then None
    else if s[0] == '\n' && s[1] == '\n' then Some(0)
    else
      match FindBreak(s[1..])
      case None => None
      case Some(i) => Some(i + 1)
  }

  /** buffer.split("\n\n", 1) cuts off the first event. */
  lemma {:induction false} CutFirst(s: string)
    ensures match FindBreak(s)
            case None => SplitEvents(s) == [s]
            case Some(i) => SplitEvents(s) == [s[..i]] + SplitEvents(s[i + 2..])
  {
    if |s| >= 2 && !(s[0] == '\n' && s[1] == '\n') {
      CutFirst(s[1..]);
      assert s == [s[0]] + s[1..];
      if FindBreak(s).Some? {
        var i := FindBreak(s).value;
        assert s[..i] == [s[0]] + s[1..][..i - 1];
        assert s[1..][i + 1..] == s[i + 2..];
      }
    }
  }

  /** Cutting off the first event leaves the rest of the stream to be split as before. */
  lemma {:induction false} CutStep(buffer: string, later: string)
    requires FindBreak(buffer).Some?
    ensures var i := FindBreak(buffer).value;
            SplitEvents(buffer + later) == [buffer[..i]] + SplitEvents(buffer[i + 2..] + later)
  {
    hide SplitEvents;
    var i := FindBreak(buffer).value;
    var event, rest := buffer[..i], buffer[i + 2..];
    CutFirst(buffer);
    SplitConcat(buffer, later);
    SplitConcat(rest, later);
    assert Init([event] + SplitEvents(rest)) == [event] + Init(SplitEvents(rest));
    assert Last([event] + SplitEvents(rest)) == Last(SplitEvents(rest));
  }

  /** The read loop of measure_first_token.measure_once. */
  method ReadBytes(stream: string) returns (received: seq<string>, buffer: string)
    ensures received == Init(SplitEvents(stream))
    ensures buffer == Last(SplitEvents(stream))
  {
    hide SplitEvents, FindBreak;
    received, buffer := [], "";
    SplitUnfold("");
    assert "" + stream[0..] == stream;
    for i := 0 to |stream|
      invariant SplitEvents(stream) == received + SplitEvents(buffer + stream[i..])
      invariant SplitEvents(buffer) == [buffer]
    {
      ghost var later := stream[i + 1..];
      assert buffer + stream[i..] == (buffer + [stream[i]]) + later;
      buffer := buffer + [stream[i]];
      var cut := FindBreak(buffer);
      while cut.Some?
        invariant cut == FindBreak(buffer)
        invariant SplitEvents(stream) == received + SplitEvents(buffer + later)
        decreases |buffer|
      {
        CutStep(buffer, later);
        received, buffer := received + [buffer[..cut.value]], buffer[cut.value + 2..];
        cut := FindBreak(buffer);
      }
      CutFirst(buffer);
    }
    assert buffer + stream[|stream|..] == buffer;
    assert Init(received + [buffer]) == received;
  }

  // ---- the payloads of an event ----

  function Lines(s: string): (lines: seq<string>)
    ensures lines != []
  {
    if s == "" then [""]
    else
      var lines := Lines(s[1..]);
      if s[0] == '\n' then [""] + lines else [[s[0]] + lines[0]] + lines[1..]
  }

  predicate IsData(line: string) {
    DATA <= line
  }

  function DataLines(lines: seq<string>): (r: seq<string>)
    ensures forall line :: line in r ==> IsData(line)
  {
    if lines == [] then []
    else if IsData(lines[0]) then [lines[0]] + DataLines(lines[1..])
    else DataLines(lines[1..])
  }

  /** lines.find(l => l.startsWith("data: ")). */
  function FindData(lines: seq<string>): (r: Option<string>)
    ensures r.Some? ==> IsData(r.value)
  {
    if lines == [] then None
    else if IsData(lines[0]) then Some(lines[0])
    else FindData(lines[1..])
  }

  /** What the chat client parses from one event: its first data line, without the prefix. */
  function ChatPayloads(event: string): seq<string> {
    match FindData(Lines(event))
    case None => []
    case Some(line) => [line[|DATA|..]]
  }

  function WithoutPrefix(lines: seq<string>): seq<string>
    requires forall line :: line in lines ==> IsData(line)
  {
    if lines == [] then [] else assert IsData(lines[0]); [lines[0][|DATA|..]] + WithoutPrefix(lines[1..])
  }

  /** What the measuring script parses from one event: every data line. */
  function ScriptPayloads(event: string): seq<string> {
    WithoutPrefix(DataLines(Lines(event)))
  }

  lemma {:induction false} FindIsFirst(lines: seq<string>)
    ensures FindData(lines) == if DataLines(lines) == [] then None else Some(DataLines(lines)[0])
  {
    if lines != [] && !IsData(lines[0]) {
      FindIsFirst(lines[1..]);
    }
  }

  /** The two clients parse the same from an event exactly if it has at most one data line. */
  lemma {:induction false} ClientsAgreeOnEvent(event: string)
    ensures ChatPayloads(event) == ScriptPayloads(event) <==> |DataLines(Lines(event))| <= 1
    ensures ChatPayloads(event) <= ScriptPayloads(event)
  {
    FindIsFirst(Lines(event));
    var data := DataLines(Lines(event));
    WithoutPrefixLength(data);
    if |data| == 1 {
      assert data == [data[0]];
    }
  }

  lemma {:induction false} WithoutPrefixLength(lines: seq<string>)
    requires forall line :: line in lines ==> IsData(line)
    ensures |WithoutPrefix(lines)| == |lines|
  {
    if lines != [] {
      WithoutPrefixLength(lines[1..]);
    }
  }

  // ---- the round trip ----

  lemma {:induction false} OneLine(s: string)
    requires '\n' !in s
    ensures Lines(s) == [s] && FindBreak(s) == None
  {
    if s != "" {
      OneLine(s[1..]);
      assert s == [s[0]] + s[1..];
    }
  }

  lemma {:induction false} BreakBehind(head: string, tail: string)
    requires '\n' !in head
    ensures FindBreak(head + "\n\n" + tail) == Some(|head|)
  {
    var s := head + "\n\n" + tail;
    if head != "" {
      BreakBehind(head[1..], tail);
      assert s[1..] == head[1..] + "\n\n" + tail;
    }
  }

  function DataEvents(payloads: seq<string>): seq<string> {
    if payloads == [] then [] else [DATA + payloads[0]] + DataEvents(payloads[1..])
  }

  lemma {:induction false} SplitFrames(payloads: seq<string>)
    requires forall p :: p in payloads ==> '\n' !in p
    ensures SplitEvents(Frames(payloads)) == DataEvents(payloads) + [""]
  {
    if payloads != [] {
      var head := DATA + payloads[0];
      var tail := Frames(payloads[1..]);
      assert Frames(payloads) == head + "\n\n" + tail;
      assert payloads[0] in payloads;
      BreakBehind(head, tail);
      CutFirst(Frames(payloads));
      assert Frames(payloads)[|head| + 2..] == tail && Frames(payloads)[..|head|] == head;
      SplitFrames(payloads[1..]);
    }
  }

  lemma {:induction false} FramePayload(payload: string)
    requires '\n' !in payload
    ensures ChatPayloads(DATA + payload) == [payload] && ScriptPayloads(DATA + payload) == [payload]
  {
    var event := DATA + payload;
    OneLine(event);
    assert IsData(event) && event[|DATA|..] == payload;
    assert Lines(event)[1..] == [];
    var none: seq<string> := [];
    assert [event][1..] == none;
    assert DataLines([event]) == [event];
    assert WithoutPrefix([event]) == [payload] + WithoutPrefix([]);
  }

  /** All payloads of a list of events, by one client or the other. */
  function AllChat(events: seq<string>): seq<string> {
    if events == [] then [] else ChatPayloads(events[0]) + AllChat(events[1..])
  }

  function AllScript(events: seq<string>): seq<string> {
    if events == [] then [] else ScriptPayloads(events[0]) + AllScript(events[1..])
  }

  lemma {:induction false} DataEventsPayloads(payloads: seq<string>)
    requires forall p :: p in payloads ==> '\n' !in p
    ensures AllChat(DataEvents(payloads)) == payloads && AllScript(DataEvents(payloads)) == payloads
  {
    if payloads != [] {
      assert payloads[0] in payloads;
      FramePayload(payloads[0]);
      DataEventsPayloads(payloads[1..]);
    }
  }

  /** However the frames are cut into network chunks, both clients read back exactly the payloads,
      in order, and nothing is left in the buffer. */
  lemma {:induction false} RoundTrip(payloads: seq<string>, chunks: seq<string>)
    requires forall p :: p in payloads ==> '\n' !in p
    requires Concat(chunks) == Frames(payloads)
    ensures AllChat(Init(SplitEvents(Concat(chunks)))) == payloads
    ensures AllScript(Init(SplitEvents(Concat(chunks)))) == payloads
    ensures Last(SplitEvents(Concat(chunks))) == ""
  {
    SplitFrames(payloads);
    DataEventsPayloads(payloads);
    assert Init(DataEvents(payloads) + [""]) == DataEvents(payloads);
  }

  /** On any stream the script parses the chat client's payloads and possibly more: the same exactly
      if no event has two data lines. */
  lemma {:induction false} ClientsAgree(events: seq<string>)
    ensures |AllChat(events)| <= |AllScript(events)|
    ensures AllChat(events) == AllScript(events) <==> forall e :: e in events ==> |DataLines(Lines(e))| <= 1
  {
    if events != [] {
      var e, rest := events[0], events[1..];
      ClientsAgree(rest);
      ClientsAgreeOnEvent(e);
      assert events == [e] + rest;
      if |DataLines(Lines(e))| <= 1 {
        assert forall x :: x in events <==> x == e || x in rest;
        if AllChat(events) == AllScript(events) {
          assert AllChat(rest) == AllChat(events)[|ChatPayloads(e)|..];
        }
      } else {
        WithoutPrefixLength(DataLines(Lines(e)));
        assert e in events;
        assert |AllChat(events)| < |AllScript(events)|;
      }
    }
  }

  // ---- what splitting and reading mean ----

  /** The parts with the separator between them. */
  function Joined(parts: seq<string>, separator: string): string
    requires parts != []
  {
    if |parts| == 1 then parts[0] else parts[0] + separator + Joined(parts[1..], separator)
  }

  ghost predicate NoBlankLine(s: string) {
    forall i :: 0 <= i < |s| - 1 ==> !(s[i] == '\n' && s[i + 1] == '\n')
  }

  lemma {:induction false} JoinedCons(c: char, parts: seq<string>, separator: string)
    requires parts != []
    ensures Joined([[c] + parts[0]] + parts[1..], separator) == [c] + Joined(parts, separator)
  {
    var longer := [[c] + parts[0]] + parts[1..];
    if |parts| > 1 {
      assert longer[1..] == parts[1..];
      var rest := Joined(parts[1..], separator);
      assert ([c] + parts[0]) + separator + rest == [c] + (parts[0] + separator + rest);
    }
  }

  /** Lines are what stands between the newlines. */
  lemma {:induction false} LinesExactly(s: string)
    ensures Joined(Lines(s), "\n") == s
    ensures forall line :: line in Lines(s) ==> '\n' !in line
  {
    if s != "" {
      LinesExactly(s[1..]);
      var lines := Lines(s[1..]);
      assert s == [s[0]] + s[1..] && lines == [lines[0]] + lines[1..];
      if s[0] == '\n' {
        assert ([""] + lines)[1..] == lines;
      } else {
        JoinedCons(s[0], lines, "\n");
      }
    }
  }

  /** Events are what stands between blank lines, cut from the left. */
  lemma {:induction false} EventsExactly(s: string)
    ensures Joined(SplitEvents(s), "\n\n") == s
    ensures forall part :: part in SplitEvents(s) ==> NoBlankLine(part)
  {
    if |s| >= 2 {
      if s[0] == '\n' && s[1] == '\n' {
        EventsExactly(s[2..]);
        var parts := SplitEvents(s[2..]);
        assert ([""] + parts)[1..] == parts;
        assert s == "\n\n" + s[2..];
      } else {
        EventsExactly(s[1..]);
        var parts := SplitEvents(s[1..]);
        assert s == [s[0]] + s[1..] && parts == [parts[0]] + parts[1..];
        JoinedCons(s[0], parts, "\n\n");
        FirstPart(s);
      }
    }
  }

  /** The first part is the beginning of the text. */
  lemma {:induction false} FirstPart(s: string)
    requires |s| >= 2 && !(s[0] == '\n' && s[1] == '\n') && NoBlankLine(SplitEvents(s[1..])[0])
    ensures NoBlankLine([s[0]] + SplitEvents(s[1..])[0])
  {
    var first := SplitEvents(s[1..])[0];
    StartsText(s[1..]);
    var longer := [s[0]] + first;
    forall i | 0 <= i < |longer| - 1 ensures !(longer[i] == '\n' && longer[i + 1] == '\n') {
      if i > 0 {
        assert longer[i] == first[i - 1] && longer[i + 1] == first[i];
      }
    }
  }

  lemma {:induction false} StartsText(s: string)
    ensures SplitEvents(s)[0] <= s
  {
    if |s| >= 2 && !(s[0] == '\n' && s[1] == '\n') {
      StartsText(s[1..]);
      assert s == [s[0]] + s[1..];
    }
  }

  /** A frame is one data line and a blank line. */
  lemma {:induction false} FrameExactly(payload: string)
    ensures Frame(payload) == "data: " + payload + "\n\n" && Concat([Frame(payload)]) == Frame(payload)
  {
    assert [Frame(payload)][1..] == [];
  }

  /** The script parses of an event exactly what stands behind "data: " in one of its lines. */
  lemma {:induction false} ScriptExactly(event: string, payload: string)
    ensures payload in ScriptPayloads(event) <==> "data: " + payload in Lines(event)
  {
    DataExactly(Lines(event), payload);
  }

  lemma {:induction false} DataExactly(lines: seq<string>, payload: string)
    ensures payload in WithoutPrefix(DataLines(lines)) <==> DATA + payload in lines
  {
    if lines != [] {
      assert lines == [lines[0]] + lines[1..];
      DataExactly(lines[1..], payload);
      if IsData(lines[0]) {
        assert DataLines(lines)[1..] == DataLines(lines[1..]);
        assert lines[0] == DATA + lines[0][|DATA|..];
        assert (DATA + payload)[|DATA|..] == payload;
      }
    }
  }
}
