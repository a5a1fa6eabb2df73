/**
 * The snapshot stream: the frames that the REST gateway writes and the client's incremental
 * decoder of them (the event-stream format of section 9.2 of the WHATWG HTML standard).
 *
 * Chunks are strings of code points, as a streaming `TextDecoder` delivers them.
 */
module SnapshotStream {
  import opened Prelude

  // ---------------------------------------------------------------------------
  // Text
  // ---------------------------------------------------------------------------

  /** White space and line terminators as `trimStart` knows them. */
  predicate IsScriptSpace(c: char) {
    || c in {'\t', '\n', '\U{B}', '\U{C}', '\r', ' ', '\U{A0}', '\U{1680}'}
    || '\U{2000}' <= c <= '\U{200A}'
    || c in {'\U{2028}', '\U{2029}', '\U{202F}', '\U{205F}', '\U{3000}', '\U{FEFF}'}
  }

  function TrimStart(s: string): string {
    if s != "" && IsScriptSpace(s[0]) then TrimStart(s[1..]) else s
  }

  predicate BlankLineAt(s: string, i: nat) {
    i + 1 < |s| && s[i] == '\n' && s[i + 1] == '\n'
  }

  /** `indexOf('\n\n')`, from `start` on. */
  function BlankLine(s: string, start: nat): (index: Option<nat>)
    requires start <= |s|
    ensures index.Some? ==> start <= index.value && BlankLineAt(s, index.value)
    ensures index.Some? ==> forall k: nat :: start <= k < index.value ==> !BlankLineAt(s, k)
    ensures index.None? ==> forall k: nat :: start <= k ==> !BlankLineAt(s, k)
    decreases |s| - start
  {
    if BlankLineAt(s, start) then Some(start)
    else if start == |s| then None
    else BlankLine(s, start + 1)
  }

  function LineEnd(s: string): (n: nat)
    ensures n <= |s|
    ensures forall k :: 0 <= k < n ==> s[k] != '\n'
    ensures n < |s| ==> s[n] == '\n'
  {
    if s == "" || s[0] == '\n' then 0 else 1 + LineEnd(s[1..])
  }

  /** `split(/\r?\n/)`: the break takes one `\r` before it along. */
  function SplitLines(s: string): (lines: seq<string>)
    ensures lines != []
    decreases |s|
  {
    var n := LineEnd(s);
    if n == |s| then [s]
    else [if n > 0 && s[n - 1] == '\r' then s[..n - 1] else s[..n]] + SplitLines(s[n + 1..])
  }

  function Join(parts: seq<string>): string {
    if parts == [] then ""
    else if |parts| == 1 then parts[0]
    else Join(parts[..|parts| - 1]) + "\n" + parts[|parts| - 1]
  }

  // ---------------------------------------------------------------------------
  // The decoder
  // ---------------------------------------------------------------------------

  /** What the `data:` lines carry. */
  function DataOf(lines: seq<string>): seq<string> {
    if lines == [] then []
    else
      var last := lines[|lines| - 1];
      DataOf(lines[..|lines| - 1]) + (if "data:" <= last then [TrimStart(last[5..])] else [])
  }

  function MessageOf(raw: string): Option<string> {
    var data := DataOf(SplitLines(raw));
    if data == [] then None else Some(Join(data))
  }

  /** A frame without data, or with empty data, yields nothing. */
  function Yielded(message: Option<string>): seq<string> {
    if message.None? || message.value == "" then [] else [message.value]
  }

  /** The messages of the complete frames of `text`. */
  function Messages(text: string): seq<string>
    decreases |text|
  {
    var index := BlankLine(text, 0);
    if index.None? then []
    else Yielded(MessageOf(text[..index.value])) + Messages(text[index.value + 2..])
  }

  /** What follows the last complete frame of `text`. */
  function Remainder(text: string): (rest: string)
    ensures BlankLine(rest, 0).None?
    decreases |text|
  {
    var index := BlankLine(text, 0);
    if index.None? then text else Remainder(text[index.value + 2..])
  }

  lemma FirstFrame(text: string)
    ensures
      var index := BlankLine(text, 0);
      Messages(text) ==
        (if index.None? then [] else Yielded(MessageOf(text[..index.value])) + Messages(text[index.value + 2..]))
    ensures
      var index := BlankLine(text, 0);
      Remainder(text) == if index.None? then text else Remainder(text[index.value + 2..])
  {
    hide BlankLine, MessageOf, Yielded;
  }

  /** Everything that a stream of this text yields, its unfinished last frame included. */
  function Decoded(text: string): seq<string> {
    Messages(text) + Yielded(MessageOf(Remainder(text)))
  }

  method MessageData(raw: string) returns (message: Option<string>)
    ensures message == MessageOf(raw)
  {
    var data: seq<string> := [];
    var lines := SplitLines(raw);
    for i := 0 to |lines|
      invariant data == DataOf(lines[..i])
    {
      assert lines[..i + 1][..i] == lines[..i];
      if "data:" <= lines[i] {
        data := data + [TrimStart(lines[i][5..])];
      }
    }
    assert lines[..|lines|] == lines;
    message := if |data| > 0 then Some(Join(data)) else None;
  }

  class GatewaySseDecoder {
    var buffer: string

    constructor ()
      ensures buffer == ""
    {
      buffer := "";
    }

    method Drain() returns (messages: seq<string>)
      modifies this
      ensures messages == Messages(old(buffer)) && buffer == Remainder(old(buffer))
    {
      hide BlankLine, Messages, Remainder, MessageOf;
      messages := [];
      var index := BlankLine(buffer, 0);
      while index.Some?
        invariant index == BlankLine(buffer, 0)
        invariant messages + Messages(buffer) == Messages(old(buffer))
        invariant Remainder(buffer) == Remainder(old(buffer))
        decreases |buffer|
      {
        FirstFrame(buffer);
        var raw := buffer[..index.value];
        buffer := buffer[index.value + 2..];
        var data := MessageData(raw);
        if data.Some? && data.value != "" {
          messages := messages + [data.value];
        }
        index := BlankLine(buffer, 0);
      }
      FirstFrame(buffer);
      assert messages + [] == messages;
    }

    method Push(chunk: string) returns (messages: seq<string>)
      modifies this
      ensures messages == Messages(old(buffer) + chunk) && buffer == Remainder(old(buffer) + chunk)
    {
      buffer := buffer + chunk;
      messages := Drain();
    }

    method Finish(chunk: string) returns (messages: seq<string>)
      modifies this
      ensures messages == Decoded(old(buffer) + chunk) && buffer == ""
    {
      buffer := buffer + chunk;
      messages := Drain();
      var tail := MessageData(buffer);
      buffer := "";
      if tail.Some? && tail.value != "" {
        messages := messages + [tail.value];
      }
    }
  }

  // ---------------------------------------------------------------------------
  // Chunking does not matter
  // ---------------------------------------------------------------------------

  function Concat(chunks: seq<string>): string {
    if chunks == [] then "" else Concat(chunks[..|chunks| - 1]) + chunks[|chunks| - 1]
  }

  /** More text does not move the first blank line. */
  lemma {:induction false} FirstBlankLineStays(text: string, more: string)
    requires BlankLine(text, 0).Some?
    ensures BlankLine(text + more, 0) == BlankLine(text, 0)
  {
    var i := BlankLine(text, 0).value;
    hide BlankLine;
    assert BlankLineAt(text + more, i);
    assert forall k: nat :: k < i ==> BlankLineAt(text + more, k) == BlankLineAt(text, k);
  }

  /** Decoding what has arrived and keeping the remainder loses nothing. */
  lemma {:induction false} DecodingInTwoSteps(text: string, more: string)
    ensures Messages(text + more) == Messages(text) + Messages(Remainder(text) + more)
    ensures Remainder(text + more) == Remainder(Remainder(text) + more)
    decreases |text|
  {
    hide BlankLine, Messages, Remainder, MessageOf, Yielded;
    var index := BlankLine(text, 0);
    FirstFrame(text);
    if index.Some? {
      var i := index.value;
      FirstBlankLineStays(text, more);
      FirstFrame(text + more);
      assert (text + more)[..i] == text[..i] && (text + more)[i + 2..] == text[i + 2..] + more;
      DecodingInTwoSteps(text[i + 2..], more);
    }
  }

  // ---------------------------------------------------------------------------
  // The server's frames
  // ---------------------------------------------------------------------------

  /** One frame as the server writes it, with event name `snapshot` or `error`. */
  function Frame(event: string, data: string): string {
    "event: " + event + "\ndata: " + data + "\n\n"
  }

  /** One line that neither is empty nor starts with white space, as every JSON document printed on one line. */
  predicate IsPayload(data: string) {
    '\n' !in data && data != "" && !IsScriptSpace(data[0])
  }

  lemma FirstLine(s: string)
    ensures
      var n := LineEnd(s);
      SplitLines(s) ==
        if n == |s| then [s]
        else [if n > 0 && s[n - 1] == '\r' then s[..n - 1] else s[..n]] + SplitLines(s[n + 1..])
  {
  }

  lemma LinesOfFrame(event: string, data: string)
    requires '\n' !in event && '\n' !in data
    ensures |SplitLines("event: " + event + "\ndata: " + data)| == 2
    ensures SplitLines("event: " + event + "\ndata: " + data)[1] == "data: " + data
    ensures !("data:" <= SplitLines("event: " + event + "\ndata: " + data)[0])
  {
    var header, body := "event: " + event, "data: " + data;
    var raw := "event: " + event + "\ndata: " + data;
    assert raw == header + "\n" + body;
    assert forall k :: 0 <= k < |header| ==> raw[k] == header[k];
    assert '\n' !in header && '\n' !in body;
    assert raw[|header|] == '\n';
    assert raw[..|header|] == header && raw[|header| + 1..] == body && body[..|body|] == body;
    assert LineEnd(raw) == |header| && LineEnd(body) == |body|;
    FirstLine(raw);
    FirstLine(body);
    hide SplitLines, LineEnd;
    assert SplitLines(raw)[0][0] == 'e';
  }

  /** A frame whose data is one line carries that line, less its leading white space. */
  lemma MessageOfFrame(event: string, data: string)
    requires '\n' !in event && '\n' !in data
    ensures MessageOf("event: " + event + "\ndata: " + data) == Some(TrimStart(data))
  {
    hide SplitLines, LineEnd;
    var raw := "event: " + event + "\ndata: " + data;
    LinesOfFrame(event, data);
    var lines := SplitLines(raw);
    assert "data: " + data == "data:" + (" " + data);
    assert ("data: " + data)[5..] == " " + data;
    assert (" " + data)[1..] == data;
    assert lines[..1] == [lines[0]];
    assert DataOf(lines[..1]) == DataOf([]) + [];
    assert DataOf(lines) == [TrimStart(data)];
  }

  lemma FrameEndsAtBlankLine(event: string, data: string, rest: string)
    requires '\n' !in event && '\n' !in data
    ensures BlankLine(Frame(event, data) + rest, 0) == Some(|Frame(event, data)| - 2)
  {
    var header, body := "event: " + event, "data: " + data;
    var text := Frame(event, data) + rest;
    assert text == header + "\n" + body + "\n\n" + rest;
    var end := |header| + 1 + |body|;
    assert BlankLineAt(text, end);
    forall k: nat | k < end
      ensures !BlankLineAt(text, k)
    {
      if k < |header| {
        assert text[k] == header[k] && header[k] in header;
      } else if k == |header| {
        assert text[k + 1] == body[0] == 'd';
      } else {
        assert text[k] == body[k - |header| - 1] && body[k - |header| - 1] in body;
      }
    }
  }

  lemma FrameThenRest(event: string, data: string, rest: string)
    requires '\n' !in event && '\n' !in data
    ensures Messages(Frame(event, data) + rest) == Yielded(Some(TrimStart(data))) + Messages(rest)
    ensures Remainder(Frame(event, data) + rest) == Remainder(rest)
  {
    hide BlankLine, Messages, Remainder, MessageOf, TrimStart;
    var text := Frame(event, data) + rest;
    FirstFrame(text);
    FrameEndsAtBlankLine(event, data, rest);
    MessageOfFrame(event, data);
    var end := |Frame(event, data)| - 2;
    assert text[..end] == "event: " + event + "\ndata: " + data;
    assert text[end + 2..] == rest;
  }

  lemma NoText()
    ensures Messages("") == [] && Remainder("") == "" && Yielded(MessageOf("")) == []
  {
    assert SplitLines("") == [""] && DataOf([""]) == DataOf([]) + [];
  }

  // ---------------------------------------------------------------------------
  // Frames of several lines
  // ---------------------------------------------------------------------------

  /** The code points of ECMAScript's white space and line terminators. */
  lemma SpaceIsScripts(c: char)
    ensures
      var n := c as int;
      IsScriptSpace(c) <==>
        9 <= n <= 13 || 8192 <= n <= 8202 || n in {32, 160, 5760, 8232, 8233, 8239, 8287, 12288, 65279}
  {
  }

  /** What is trimmed off is white space, and what is left begins with something else. */
  lemma {:induction false} TrimStartAnswers(s: string) returns (n: nat)
    ensures n <= |s| && TrimStart(s) == s[n..] && (n < |s| ==> !IsScriptSpace(s[n]))
    ensures forall i :: 0 <= i < n ==> IsScriptSpace(s[i])
  {
    hide IsScriptSpace;
    n := 0;
    if s != "" && IsScriptSpace(s[0]) {
      n := TrimStartAnswers(s[1..]);
      assert s[1..][n..] == s[n + 1..];
      n := n + 1;
    }
  }

  /** Two messages, one of which may be missing, are joined by a newline. */
  function JoinedMessage(a: Option<string>, b: Option<string>): Option<string> {
    match (a, b)
    case (None, _) => b
    case (_, None) => a
    case (Some(x), Some(y)) => Some(x + ("\n" + y))
  }

  /** What one line carries: what follows `data:`, less the white space before it; any other line carries nothing. */
  function LineMessage(line: string): Option<string> {
    if |line| >= 5 && line[..5] == "data:" then Some(TrimStart(line[5..])) else None
  }

  lemma {:induction false} DataInTwo(a: seq<string>, b: seq<string>)
    ensures DataOf(a + b) == DataOf(a) + DataOf(b)
    decreases |b|
  {
    hide TrimStart;
    if b == [] {
      assert a + b == a;
    } else {
      var front := b[..|b| - 1];
      DataInTwo(a, front);
      assert (a + b)[..|a + b| - 1] == a + front;
    }
  }

  lemma {:induction false} JoinInTwo(a: seq<string>, b: seq<string>)
    requires a != [] && b != []
    ensures Join(a + b) == Join(a) + ("\n" + Join(b))
    decreases |b|
  {
    var n := |b| - 1;
    assert (a + b)[..|a + b| - 1] == a + b[..n];
    if n > 0 {
      JoinInTwo(a, b[..n]);
    } else {
      assert a + b[..n] == a && Join(b) == b[0];
    }
  }

  lemma {:induction false} MessageOfLines(line: string, lines: seq<string>)
    ensures
      var data, rest := DataOf([line] + lines), DataOf(lines);
      (if data == [] then None else Some(Join(data)))
        == JoinedMessage(LineMessage(line), if rest == [] then None else Some(Join(rest)))
  {
    hide Join, TrimStart;
    DataInTwo([line], lines);
    assert DataOf([line]) == DataOf([]) + DataOf([line]) && [line][..0] == [];
    var own := DataOf([line]);
    assert own == if LineMessage(line).Some? then [LineMessage(line).value] else [];
    if own != [] {
      OneIsJoined(own);
      if DataOf(lines) != [] {
        JoinInTwo(own, DataOf(lines));
      } else {
        assert own + DataOf(lines) == own;
      }
    } else {
      assert own + DataOf(lines) == DataOf(lines);
    }
  }

  lemma OneIsJoined(own: seq<string>)
    requires |own| == 1
    ensures Join(own) == own[0]
  {
  }

  /** The message of a frame is that of its first line and that of the others; a line may end with CR and LF. */
  lemma {:induction false} FrameAnswers(line: string, rest: string)
    requires '\n' !in line && (line != "" ==> line[|line| - 1] != '\r')
    ensures MessageOf(line) == LineMessage(line)
    ensures MessageOf(line + ("\n" + rest)) == JoinedMessage(LineMessage(line), MessageOf(rest))
    ensures MessageOf(line + ("\r\n" + rest)) == JoinedMessage(LineMessage(line), MessageOf(rest))
  {
    LineIsAlone(line);
    LineIsSplitOff(line, rest);
    LineAndReturnAreSplitOff(line, rest);
    hide SplitLines, TrimStart, Join;
    MessageOfLines(line, []);
    MessageOfLines(line, SplitLines(rest));
    assert [line] + [] == [line] && DataOf([]) == [];
  }

  lemma {:induction false} LineIsAlone(line: string)
    requires '\n' !in line
    ensures SplitLines(line) == [line]
  {
    assert line + "" == line;
    LineEndAt(line, "");
    FirstLine(line);
  }

  lemma {:induction false} LineIsSplitOff(line: string, rest: string)
    requires '\n' !in line && (line != "" ==> line[|line| - 1] != '\r')
    ensures SplitLines(line + ("\n" + rest)) == [line] + SplitLines(rest)
  {
    var s := line + ("\n" + rest);
    LineEndAt(line, "\n" + rest);
    FirstLine(s);
    hide SplitLines, LineEnd;
    assert s[..|line|] == line && s[|line| + 1..] == rest;
    assert line != "" ==> s[|line| - 1] == line[|line| - 1];
  }

  lemma {:induction false} LineAndReturnAreSplitOff(line: string, rest: string)
    requires '\n' !in line
    ensures SplitLines(line + ("\r\n" + rest)) == [line] + SplitLines(rest)
  {
    var s, returned := line + ("\r\n" + rest), line + "\r";
    assert s == returned + ("\n" + rest);
    LineEndAt(returned, "\n" + rest);
    FirstLine(s);
    hide SplitLines, LineEnd;
    assert s[..|line|] == line && s[|line| + 2..] == rest && s[|line|] == '\r';
  }

  lemma LineEndAt(line: string, rest: string)
    requires '\n' !in line && (rest != "" ==> rest[0] == '\n')
    ensures LineEnd(line + rest) == |line|
  {
    var s := line + rest;
    assert forall k :: 0 <= k < |line| ==> s[k] == line[k] && line[k] in line;
    assert rest != "" ==> s[|line|] == '\n';
  }

  /** A message comes out unless it is missing or empty. */
  function Shown(message: Option<string>): seq<string> {
    match message
    case None => []
    case Some(text) => if |text| > 0 then [text] else []
  }

  /** Text up to its first blank line is a frame, and its message comes first; without one all is one frame. */
  lemma {:induction false} StreamAnswers(text: string, i: nat)
    ensures (forall k: nat :: !BlankLineAt(text, k)) ==> Decoded(text) == Shown(MessageOf(text))
    ensures BlankLineAt(text, i) && (forall k: nat :: k < i ==> !BlankLineAt(text, k)) ==>
      Decoded(text) == Shown(MessageOf(text[..i])) + Decoded(text[i + 2..])
  {
    hide BlankLine, Messages, Remainder, MessageOf;
    FirstFrame(text);
    var index := BlankLine(text, 0);
    if BlankLineAt(text, i) && forall k: nat :: k < i ==> !BlankLineAt(text, k) {
      assert index == Some(i);
      var rest := text[i + 2..];
      assert Messages(text) == Shown(MessageOf(text[..i])) + Messages(rest);
      assert Decoded(text) == Shown(MessageOf(text[..i])) + (Messages(rest) + Yielded(MessageOf(Remainder(rest))));
    }
    if forall k: nat :: !BlankLineAt(text, k) {
      assert index == None;
      assert Messages(text) == [] && Remainder(text) == text;
    }
  }

  // ---------------------------------------------------------------------------
  // The stream
  // ---------------------------------------------------------------------------

  /** Snapshots and errors are written to the same response, each with its event name. */
  datatype ServerFrame = ServerFrame(event: string, data: string)

  function Stream(frames: seq<ServerFrame>): string {
    if frames == [] then "" else Frame(frames[0].event, frames[0].data) + Stream(frames[1..])
  }

  /** The server writes each event name and each document on one line. */
  predicate AreLines(frames: seq<ServerFrame>) {
    forall i :: 0 <= i < |frames| ==> '\n' !in frames[i].event && '\n' !in frames[i].data
  }

  predicate ArePayloads(frames: seq<ServerFrame>) {
    forall i :: 0 <= i < |frames| ==> IsPayload(frames[i].data)
  }

  function Datas(frames: seq<ServerFrame>): (datas: seq<string>)
    ensures |datas| == |frames| && forall i :: 0 <= i < |frames| ==> datas[i] == frames[i].data
  {
    seq(|frames|, i requires 0 <= i < |frames| => frames[i].data)
  }

  /** What is left of the frames: trimmed at the start, and without the empty ones. */
  function Survivors(frames: seq<ServerFrame>): (datas: seq<string>)
    ensures |datas| <= |frames|
  {
    if frames == [] then [] else Yielded(Some(TrimStart(frames[0].data))) + Survivors(frames[1..])
  }

  lemma {:induction false} StreamYieldsSurvivors(frames: seq<ServerFrame>)
    requires AreLines(frames)
    ensures Messages(Stream(frames)) == Survivors(frames) && Remainder(Stream(frames)) == ""
  {
    hide BlankLine, Messages, Remainder, MessageOf, Frame, TrimStart, Yielded;
    NoText();
    if frames != [] {
      FrameThenRest(frames[0].event, frames[0].data, Stream(frames[1..]));
      StreamYieldsSurvivors(frames[1..]);
    }
  }

  lemma {:induction false} SurvivorsAreDatasIff(frames: seq<ServerFrame>)
    requires AreLines(frames)
    ensures Survivors(frames) == Datas(frames) <==> ArePayloads(frames)
  {
    if frames != [] {
      var data, rest := frames[0].data, frames[1..];
      SurvivorsAreDatasIff(rest);
      TrimStartIsIdentity(data);
      hide TrimStart;
      assert Datas(frames) == [data] + Datas(rest);
      var first := Yielded(Some(TrimStart(data)));
      if first != [] {
        assert Survivors(frames) == [TrimStart(data)] + Survivors(rest);
        assert Survivors(frames)[0] == TrimStart(data) && Survivors(frames)[1..] == Survivors(rest);
        assert Datas(frames)[0] == data && Datas(frames)[1..] == Datas(rest);
      }
    }
  }

  /** The data of all frames come out once, in order, and nothing else does, iff all of them are payloads. */
  lemma {:induction false} StreamRoundTripIff(frames: seq<ServerFrame>)
    requires AreLines(frames)
    ensures Decoded(Stream(frames)) == Datas(frames) <==> ArePayloads(frames)
  {
    hide Messages, Remainder, MessageOf, Survivors;
    NoText();
    StreamYieldsSurvivors(frames);
    SurvivorsAreDatasIff(frames);
    assert Decoded(Stream(frames)) == Survivors(frames);
  }

  lemma {:induction false} TrimStartIsIdentity(s: string)
    ensures TrimStart(s) == s <==> s == "" || !IsScriptSpace(s[0])
    ensures |TrimStart(s)| <= |s|
  {
    if s != "" {
      TrimStartIsIdentity(s[1..]);
    }
  }

  // ---------------------------------------------------------------------------
  // The client
  // ---------------------------------------------------------------------------

  /**
   * The client's read loop: for arbitrary text, however it is cut into chunks, the decoder yields
   * what the whole text yields; so of the server's frames it yields exactly the data, in order.
   */
  method ReadSnapshotStream(chunks: seq<string>) returns (yielded: seq<string>)
    ensures yielded == Decoded(Concat(chunks))
    ensures forall frames :: AreLines(frames) && ArePayloads(frames) && Concat(chunks) == Stream(frames) ==>
      yielded == Datas(frames)
  {
    var events := new GatewaySseDecoder();
    NoText();
    hide Messages, Remainder, MessageOf, BlankLine, Yielded;
    yielded := [];
    for i := 0 to |chunks|
      invariant fresh(events)
      invariant yielded == Messages(Concat(chunks[..i])) && events.buffer == Remainder(Concat(chunks[..i]))
    {
      assert chunks[..i + 1][..i] == chunks[..i];
      DecodingInTwoSteps(Concat(chunks[..i]), chunks[i]);
      var messages := events.Push(chunks[i]);
      yielded := yielded + messages;
    }
    assert chunks[..|chunks|] == chunks;
    ghost var text := Concat(chunks);
    DecodingInTwoSteps(text, "");
    assert text + "" == text && Remainder(text) + "" == Remainder(text);
    var messages := events.Finish("");
    yielded := yielded + messages;
    forall frames | AreLines(frames) && ArePayloads(frames) && text == Stream(frames)
      ensures yielded == Datas(frames)
    {
      StreamRoundTripIff(frames);
    }
  }
}
