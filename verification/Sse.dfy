/** A command's reply as server-sent events: printed by the runner, parsed from chunks by the page. */
module Sse {
  import opened Text
  import opened LineScan
  import opened Shell

  datatype Event = Stdout(data: string) | Stderr(data: string) | Complete(exitCode: int)

  /** JSON, as far as it matters here. */
  datatype Codec = Codec(encode: Event -> string, decode: string -> Option<Event>)
  {
    /** Printing an event that carries something is invertible, takes one line, and starts an object. */
    ghost predicate Lawful() {
      forall e | Sendable(e) ::
        decode(encode(e)) == Some(e) && NEWLINE !in encode(e) && encode(e) != "" && encode(e)[0] == '{'
    }
  }

  predicate Sendable(e: Event) {
    e.Complete? || e.data != ""
  }

  const DATA := "data:"

  function Frame(codec: Codec, e: Event): string {
    DATA + " " + codec.encode(e) + [NEWLINE, NEWLINE]
  }

  function Frames(codec: Codec, events: seq<Event>): string {
    if events == [] then "" else Frame(codec, events[0]) + Frames(codec, events[1..])
  }

  /** A frame on the wire: the field name, one line of data, and an empty line. */
  lemma FrameText(codec: Codec, e: Event)
    ensures Frame(codec, e) == "data: " + codec.encode(e) + "\n\n"
  {
    assert DATA + " " == "data: ";
  }

  lemma {:induction false} FramesAppend(codec: Codec, xs: seq<Event>, ys: seq<Event>)
    ensures Frames(codec, xs + ys) == Frames(codec, xs) + Frames(codec, ys)
  {
    if xs == [] {
      assert xs + ys == ys;
    } else {
      assert (xs + ys)[1..] == xs[1..] + ys;
      FramesAppend(codec, xs[1..], ys);
      assert Frame(codec, xs[0]) + (Frames(codec, xs[1..]) + Frames(codec, ys))
          == Frame(codec, xs[0]) + Frames(codec, xs[1..]) + Frames(codec, ys);
    }
  }

  // ---- printing ----

  function StdoutEvents(lines: seq<string>): (events: seq<Event>)
    ensures |events| == |lines| && forall i | 0 <= i < |lines| :: events[i] == Stdout(lines[i])
  {
    seq(|lines|, i requires 0 <= i < |lines| => Stdout(lines[i]))
  }

  /** stdout line by line, then stderr if there is any, then the exit code; an error shows as -1. */
  function ReplyEvents(r: Reply): seq<Event> {
    StdoutEvents(r.sent) + (if r.stderr != "" then [Stderr(r.stderr)] else []) + [Complete(r.exitCode)]
  }

  /** The events are those of this reply: its stdout in order, its stderr if there is any, then its exit code. */
  ghost predicate Tells(events: seq<Event>, r: Reply) {
    var n := |r.sent|;
    && |events| == n + (if r.stderr == "" then 1 else 2)
    && (forall i | 0 <= i < n :: events[i] == Stdout(r.sent[i]))
    && (r.stderr != "" ==> events[n] == Stderr(r.stderr))
    && events[|events| - 1] == Complete(r.exitCode)
  }

  lemma StdoutFirst(events: seq<Event>, r: Reply)
    requires Tells(events, r)
    ensures |r.sent| < |events| && !events[|r.sent|].Stdout?
    ensures forall i | 0 <= i < |r.sent| :: events[i].Stdout?
  {
  }

  /** Exactly the last event is an exit code, and the events tell the whole reply: no two replies share them. */
  lemma EventsTell(events: seq<Event>, r: Reply, r': Reply)
    requires Tells(events, r)
    ensures forall i | 0 <= i < |events| :: events[i].Complete? <==> i == |events| - 1
    ensures Tells(events, r') <==> r'.sent == r.sent && r'.stderr == r.stderr && r'.exitCode == r.exitCode
  {
    StdoutFirst(events, r);
    if Tells(events, r') {
      StdoutFirst(events, r');
      forall i | 0 <= i < |r.sent| ensures r'.sent[i] == r.sent[i] {
        assert events[i] == Stdout(r.sent[i]) && events[i] == Stdout(r'.sent[i]);
      }
    }
  }

  class ResponseWriter {
    const codec: Codec
    var body: string

    constructor (codec: Codec)
      ensures this.codec == codec && body == ""
    {
      this.codec, body := codec, "";
    }

    method WriteSSE(event: Event)
      modifies this
      ensures body == old(body) + Frame(codec, event)
    {
      body := body + (DATA + " " + codec.encode(event) + [NEWLINE, NEWLINE]);
    }

    /** The streaming part of handleExecute, once the shell has answered. */
    method WriteReply(r: Reply)
      modifies this
      ensures body == old(body) + Frames(codec, ReplyEvents(r))
      ensures codec.Lawful() && "" !in r.sent && old(body) == "" ==>
                !ParseText(codec, body).failed && Tells(ParseText(codec, body).events, r)
    {
      hide Frames, Frame, ParseText, Tells, Codec.Lawful;
      ghost var done: seq<Event> := [];
      NoFrames();
      for i := 0 to |r.sent|
        invariant done == StdoutEvents(r.sent[..i]) && body == old(body) + Frames(codec, done)
      {
        FramesAppend(codec, done, [Stdout(r.sent[i])]);
        OneFrame(Stdout(r.sent[i]));
        WriteSSE(Stdout(r.sent[i]));
        done := done + [Stdout(r.sent[i])];
      }
      assert r.sent[..|r.sent|] == r.sent;
      if r.stderr != "" {
        FramesAppend(codec, done, [Stderr(r.stderr)]);
        OneFrame(Stderr(r.stderr));
        WriteSSE(Stderr(r.stderr));
        done := done + [Stderr(r.stderr)];
      }
      assert done + [Complete(r.exitCode)] == ReplyEvents(r);
      FramesAppend(codec, done, [Complete(r.exitCode)]);
      OneFrame(Complete(r.exitCode));
      WriteSSE(Complete(r.exitCode));
      assert "" + Frames(codec, ReplyEvents(r)) == Frames(codec, ReplyEvents(r));
      if codec.Lawful() && "" !in r.sent { ReplyReads(codec, r); }
    }

    lemma NoFrames()
      ensures Frames(codec, []) == ""
    {
    }

    lemma OneFrame(e: Event)
      ensures Frames(codec, [e]) == Frame(codec, e)
    {
      assert [e][1..] == [];
    }
  }

  // ---- parsing ----

  /** The white space JavaScript's trimStart removes. */
  predicate IsJsSpace(c: char) {
    var n := c as int;
    || 0x09 <= n <= 0x0D || n == 0x20 || n == 0xA0 || n == 0x1680 || 0x2000 <= n <= 0x200A
    || n == 0x2028 || n == 0x2029 || n == 0x202F || n == 0x205F || n == 0x3000 || n == 0xFEFF
  }

  function TrimStart(s: string): string {
    if s != "" && IsJsSpace(s[0]) then TrimStart(s[1..]) else s
  }

  /** What a line carries; None for one that is no data line or an empty one. */
  function Payload(line: string): Option<string> {
    if !(DATA <= line) then None
    else
      var payload := TrimStart(line[|DATA|..]);
      if payload == "" then None else Some(payload)
  }

  /** The events yielded, and whether a line failed to parse; nothing is read after that line. */
  datatype Parsed = Parsed(events: seq<Event>, failed: bool)

  function ParseLines(codec: Codec, lines: seq<string>): Parsed {
    if lines == [] then Parsed([], false)
    else
      match Payload(lines[0])
      case None => ParseLines(codec, lines[1..])
      case Some(payload) =>
        match codec.decode(payload)
        case None => Parsed([], true)
        case Some(e) =>
          var rest := ParseLines(codec, lines[1..]);
          Parsed([e] + rest.events, rest.failed)
  }

  /** The whole response, independent of how it arrives. */
  function ParseText(codec: Codec, text: string): Parsed {
    ParseLines(codec, SplitOn(text, NEWLINE))
  }

  lemma {:induction false} ParseAppend(codec: Codec, xs: seq<string>, ys: seq<string>)
    ensures ParseLines(codec, xs + ys) ==
              var p, q := ParseLines(codec, xs), ParseLines(codec, ys);
              if p.failed then p else Parsed(p.events + q.events, q.failed)
  {
    if xs == [] {
      assert xs + ys == ys;
      assert [] + ParseLines(codec, ys).events == ParseLines(codec, ys).events;
    } else {
      assert (xs + ys)[1..] == xs[1..] + ys;
      ParseAppend(codec, xs[1..], ys);
      var rest := ParseLines(codec, xs[1..]);
      if Payload(xs[0]).Some? && codec.decode(Payload(xs[0]).value).Some? {
        var e := codec.decode(Payload(xs[0]).value).value;
        assert [e] + (rest.events + ParseLines(codec, ys).events) == [e] + rest.events + ParseLines(codec, ys).events;
      }
    }
  }

  /** A line that is no data line, or carries only white space, changes nothing. */
  lemma OtherLine(codec: Codec, xs: seq<string>, line: string, ys: seq<string>)
    requires !(DATA <= line) || forall c | c in line[|DATA|..] :: IsJsSpace(c)
    ensures ParseLines(codec, xs + [line] + ys) == ParseLines(codec, xs + ys)
  {
    hide ParseLines;
    assert Payload(line) == None by {
      if DATA <= line {
        TrimBlank(line[|DATA|..], "");
        assert line[|DATA|..] + "" == line[|DATA|..];
      }
    }
    ParseAppend(codec, xs, [line] + ys);
    ParseAppend(codec, xs, ys);
    assert xs + [line] + ys == xs + ([line] + ys);
    FirstParsed(codec, line, ys);
  }

  /** A data line carries what follows the white space: one more event, or the end if it does not parse. */
  lemma DataLine(codec: Codec, xs: seq<string>, blank: string, payload: string, ys: seq<string>)
    requires (forall c | c in blank :: IsJsSpace(c)) && payload != "" && !IsJsSpace(payload[0])
    requires !ParseLines(codec, xs).failed
    ensures var before, after := ParseLines(codec, xs), ParseLines(codec, ys);
            ParseLines(codec, xs + [DATA + blank + payload] + ys) ==
              match codec.decode(payload)
              case None => Parsed(before.events, true)
              case Some(e) => Parsed(before.events + [e] + after.events, after.failed)
  {
    hide ParseLines;
    var line := DATA + blank + payload;
    assert DATA <= line && line[|DATA|..] == blank + payload;
    TrimBlank(blank, payload);
    ParseAppend(codec, xs, [line] + ys);
    assert xs + [line] + ys == xs + ([line] + ys);
    FirstParsed(codec, line, ys);
    var before := ParseLines(codec, xs).events;
    assert before + [] == before;
  }

  lemma FirstParsed(codec: Codec, line: string, ys: seq<string>)
    ensures ParseLines(codec, [line] + ys) ==
              match Payload(line)
              case None => ParseLines(codec, ys)
              case Some(payload) =>
                match codec.decode(payload)
                case None => Parsed([], true)
                case Some(e) => Parsed([e] + ParseLines(codec, ys).events, ParseLines(codec, ys).failed)
  {
    assert ([line] + ys)[1..] == ys;
  }

  lemma {:induction false} TrimBlank(blank: string, rest: string)
    requires (forall c | c in blank :: IsJsSpace(c)) && (rest == "" || !IsJsSpace(rest[0]))
    ensures TrimStart(blank + rest) == rest
    decreases |blank|
  {
    if blank == "" {
      assert blank + rest == rest;
    } else {
      assert blank[0] in blank && forall c | c in blank[1..] :: c in blank;
      assert (blank + rest)[1..] == blank[1..] + rest;
      TrimBlank(blank[1..], rest);
    }
  }

  /** Cutting off the last, unfinished piece and putting it before the next chunk loses nothing. */
  lemma SplitChunk(text: string, chunk: string)
    ensures var pieces := SplitOn(text, NEWLINE);
            var last := |pieces| - 1;
            SplitOn(text + chunk, NEWLINE) == pieces[..last] + SplitOn(pieces[last] + chunk, NEWLINE)
  {
    hide SplitOn;
    var pieces := SplitOn(text, NEWLINE);
    var last := |pieces| - 1;
    PiecesHaveNoSeparator(text, NEWLINE);
    assert pieces[last] in pieces;
    SplitConcat(text, chunk, NEWLINE);
    SplitConcat(pieces[last], chunk, NEWLINE);
    SplitPiece(pieces[last], NEWLINE);
  }

  /** One line: an event to yield, nothing, or a failure. */
  method ParseLine(codec: Codec, line: string) returns (events: seq<Event>, failed: bool)
    ensures Parsed(events, failed) == ParseLines(codec, [line])
  {
    assert [line][1..] == [];
    if !(DATA <= line) { return [], false; }
    var payload := TrimStart(line[5..]);
    if payload == "" { return [], false; }
    var e := codec.decode(payload);
    if e.None? { return [], true; }
    return [e.value], false;
  }

  method ParseAll(codec: Codec, lines: seq<string>) returns (events: seq<Event>, failed: bool)
    ensures Parsed(events, failed) == ParseLines(codec, lines)
  {
    events, failed := [], false;
    for i := 0 to |lines|
      invariant !failed && Parsed(events, false) == ParseLines(codec, lines[..i])
    {
      assert lines[..i + 1] == lines[..i] + [lines[i]];
      ParseAppend(codec, lines[..i], [lines[i]]);
      var found, bad := ParseLine(codec, lines[i]);
      if bad {
        assert lines == lines[..i + 1] + lines[i + 1..];
        ParseAppend(codec, lines[..i + 1], lines[i + 1..]);
        assert found == [] && events + [] == events;
        return events, true;
      }
      events := events + found;
    }
    assert lines[..|lines|] == lines;
  }

  /**
   The generator: reads chunks until the stream is done; `flushed` is what the decoder still held. The events depend
   on the concatenated text alone, and the stream is cancelled exactly when a line fails to parse.
   */
  method ReadEvents(codec: Codec, arrivals: seq<string>, flushed: string)
    returns (events: seq<Event>, completed: bool, cancelled: bool)
    ensures Parsed(events, !completed) == ParseText(codec, Concat(arrivals) + flushed)
    ensures cancelled == !completed
  {
    hide ParseLines, SplitOn, Concat;
    events, completed, cancelled := [], false, false;
    var chunks: seq<string> := [];
    ghost var text := "";
    var n := 0;
    NothingRead(codec);
    while true
      invariant n <= |arrivals| && text == Concat(arrivals[..n])
      invariant Concat(chunks) == SplitOn(text, NEWLINE)[|SplitOn(text, NEWLINE)| - 1]
      invariant Parsed(events, false) == ParseLines(codec, SplitOn(text, NEWLINE)[..|SplitOn(text, NEWLINE)| - 1])
      invariant !completed && !cancelled
      decreases |arrivals| - n
    {
      var done := n == |arrivals|;
      var value := if done then flushed else arrivals[n];
      ghost var kept := chunks;
      chunks := chunks + [value];
      ConcatOne(kept, value);
      var lines := SplitOn(Concat(chunks), NEWLINE);
      SplitChunk(text, value);
      ghost var finished := SplitOn(text, NEWLINE)[..|SplitOn(text, NEWLINE)| - 1];
      chunks := [];
      if !done {
        chunks := [lines[|lines| - 1]];
        ConcatSingle(lines[|lines| - 1]);
        ReadMore(arrivals, n);
        lines := lines[..|lines| - 1];
      }
      var found, bad := ParseAll(codec, lines);
      ParseAppend(codec, finished, lines);
      assert done || SplitOn(text + value, NEWLINE)[..|SplitOn(text + value, NEWLINE)| - 1] == finished + lines;
      if bad {
        FailedForGood(codec, arrivals, flushed, n, text + value, finished + lines);
        return events + found, false, true;
      }
      events := events + found;
      if done {
        assert arrivals[..n] == arrivals;
        return events, true, false;
      }
      text := text + value;
      n := n + 1;
    }
  }

  lemma NothingRead(codec: Codec)
    ensures SplitOn("", NEWLINE) == [""] && ParseLines(codec, SplitOn("", NEWLINE)[..0]) == Parsed([], false)
    ensures Concat([]) == ""
  {
    assert SplitOn("", NEWLINE)[..0] == [];
  }

  lemma ConcatOne(xs: seq<string>, x: string)
    ensures Concat(xs + [x]) == Concat(xs) + x
  {
    ConcatAppend(xs, [x]);
    assert [x][1..] == [] && x + "" == x;
  }

  lemma ConcatSingle(x: string)
    ensures Concat([x]) == x
  {
    assert [x][1..] == [] && x + "" == x;
  }

  lemma ReadMore(arrivals: seq<string>, n: nat)
    requires n < |arrivals|
    ensures Concat(arrivals[..n + 1]) == Concat(arrivals[..n]) + arrivals[n]
  {
    assert arrivals[..n + 1] == arrivals[..n] + [arrivals[n]];
    ConcatOne(arrivals[..n], arrivals[n]);
  }

  /** Lines finished so far are the first lines of the whole text, so a failure among them is the whole text's. */
  lemma FailedForGood(codec: Codec, arrivals: seq<string>, flushed: string, n: nat, soFar: string,
                      finished: seq<string>)
    requires n <= |arrivals| && soFar == Concat(arrivals[..n]) + (if n == |arrivals| then flushed else arrivals[n])
    requires finished == (if n == |arrivals| then SplitOn(soFar, NEWLINE)
        else SplitOn(soFar, NEWLINE)[..|SplitOn(soFar, NEWLINE)| - 1])
    requires ParseLines(codec, finished).failed
    ensures ParseText(codec, Concat(arrivals) + flushed) == ParseLines(codec, finished)
  {
    hide ParseLines, SplitOn;
    if n == |arrivals| {
      assert arrivals[..n] == arrivals;
    } else {
      ReadMore(arrivals, n);
      StillToCome(arrivals, flushed, n + 1);
      FailedBefore(codec, soFar, Concat(arrivals[n + 1..]) + flushed);
    }
  }

  lemma StillToCome(arrivals: seq<string>, flushed: string, n: nat)
    requires n <= |arrivals|
    ensures Concat(arrivals) + flushed == Concat(arrivals[..n]) + (Concat(arrivals[n..]) + flushed)
  {
    hide Concat;
    ConcatAppend(arrivals[..n], arrivals[n..]);
    assert arrivals == arrivals[..n] + arrivals[n..];
    Regroup(Concat(arrivals[..n]), Concat(arrivals[n..]), flushed);
  }

  lemma FailedBefore(codec: Codec, soFar: string, rest: string)
    requires ParseLines(codec, SplitOn(soFar, NEWLINE)[..|SplitOn(soFar, NEWLINE)| - 1]).failed
    ensures ParseText(codec, soFar + rest)
        == ParseLines(codec, SplitOn(soFar, NEWLINE)[..|SplitOn(soFar, NEWLINE)| - 1])
  {
    hide ParseLines, SplitOn;
    SplitChunk(soFar, rest);
    var pieces := SplitOn(soFar, NEWLINE);
    ParseAppend(codec, pieces[..|pieces| - 1], SplitOn(pieces[|pieces| - 1] + rest, NEWLINE));
  }

  // ---- the round trip ----

  lemma FrameLines(codec: Codec, e: Event, rest: string)
    requires codec.Lawful() && Sendable(e)
    ensures SplitOn(Frame(codec, e) + rest, NEWLINE) == [DATA + " " + codec.encode(e), ""] + SplitOn(rest, NEWLINE)
  {
    hide SplitOn, Codec.Lawful;
    var line := DATA + " " + codec.encode(e);
    var tail := [NEWLINE] + ([NEWLINE] + rest);
    assert Frame(codec, e) + rest == line + tail;
    LineHasNoNewline(codec, e);
    SplitFirst(line, [NEWLINE] + rest, NEWLINE);
    assert "" + ([NEWLINE] + rest) == [NEWLINE] + rest;
    SplitFirst("", rest, NEWLINE);
  }

  lemma LineHasNoNewline(codec: Codec, e: Event)
    requires codec.Lawful() && Sendable(e)
    ensures NEWLINE !in DATA + " " + codec.encode(e)
  {
  }

  lemma FramePayload(codec: Codec, e: Event)
    requires codec.Lawful() && Sendable(e)
    ensures Payload(DATA + " " + codec.encode(e)) == Some(codec.encode(e)) && Payload("") == None
  {
    var line := DATA + " " + codec.encode(e);
    assert line[|DATA|..] == " " + codec.encode(e);
    assert (" " + codec.encode(e))[1..] == codec.encode(e);
    assert TrimStart(codec.encode(e)) == codec.encode(e);
    assert TrimStart(" " + codec.encode(e)) == codec.encode(e);
    assert DATA <= line && !(DATA <= "");
  }

  /** Parsing what was printed gives the events back, however the text was cut. */
  lemma {:induction false} RoundTrip(codec: Codec, events: seq<Event>)
    requires codec.Lawful() && forall e | e in events :: Sendable(e)
    ensures ParseText(codec, Frames(codec, events)) == Parsed(events, false)
  {
    if events == [] {
      assert SplitOn("", NEWLINE) == [""] && [""][1..] == [];
      assert Payload("") == None && ParseLines(codec, [""]) == ParseLines(codec, [""][1..]);
    } else {
      var (e, rest) := (events[0], events[1..]);
      assert e in events && forall x | x in rest :: x in events;
      RoundTrip(codec, rest);
      FrameLines(codec, e, Frames(codec, rest));
      FramePayload(codec, e);
      var line := DATA + " " + codec.encode(e);
      var lines := [line, ""] + SplitOn(Frames(codec, rest), NEWLINE);
      assert lines[1..][1..] == SplitOn(Frames(codec, rest), NEWLINE);
      assert ParseLines(codec, lines[1..]) == ParseLines(codec, lines[1..][1..]);
      assert events == [e] + rest;
    }
  }

  /** What is parsed from a printed reply tells that reply. */
  lemma ReplyReads(codec: Codec, r: Reply)
    requires codec.Lawful() && "" !in r.sent
    ensures var parsed := ParseText(codec, Frames(codec, ReplyEvents(r)));
            !parsed.failed && Tells(parsed.events, r)
  {
    hide ParseText, Frames, Codec.Lawful;
    RoundTrip(codec, ReplyEvents(r));
  }
}
