/** From a command's stdout to the block that shows it: shell, events, chunks, parser and buffering composed. */
module EndToEnd {
  import opened Text
  import opened LineScan
  import opened Shell
  import opened ShellSession
  import opened Sse
  import OutputBlock

  const GRAY := "\U{1b}[38;5;252m"
  const RED := "\U{1b}[31m"
  const RESET := "\U{1b}[0m"

  function Signed(n: int): string {
    if n < 0 then "-" + Decimal(-n) else Decimal(n)
  }

  /** What an event writes; None for nothing. */
  function FormatEvent(e: Event): Option<string> {
    match e
    case Stdout(data) => Some(data)
    case Stderr(data) => Some(GRAY + data + RESET)
    case Complete(code) => if code == 0 then None else Some(RED + "exit code: " + Signed(code) + RESET + [NEWLINE])
  }

  function Shown(events: seq<Event>): string {
    if events == [] then ""
    else (if FormatEvent(events[0]).Some? then FormatEvent(events[0]).value else "") + Shown(events[1..])
  }

  lemma {:induction false} ShownAppend(xs: seq<Event>, ys: seq<Event>)
    ensures Shown(xs + ys) == Shown(xs) + Shown(ys)
  {
    if xs == [] {
      assert xs + ys == ys;
    } else {
      assert (xs + ys)[1..] == xs[1..] + ys && (xs + ys)[0] == xs[0];
      ShownAppend(xs[1..], ys);
      Regroup(if FormatEvent(xs[0]).Some? then FormatEvent(xs[0]).value else "", Shown(xs[1..]), Shown(ys));
    }
  }

  lemma {:induction false} ShownLines(lines: seq<string>)
    ensures Shown(StdoutEvents(lines)) == Concat(lines)
  {
    if lines != [] {
      assert StdoutEvents(lines)[1..] == StdoutEvents(lines[1..]);
      ShownLines(lines[1..]);
    }
  }

  function ReadSigned(s: string): Option<int> {
    var minus := s != "" && s[0] == '-';
    var digits := ParseDigits(if minus then s[1..] else s);
    if digits.None? then None
    else
      var n: int := digits.value;
      Some(if minus then -n else n)
  }

  lemma SignedReads(n: int)
    ensures ReadSigned(Signed(n)) == Some(n)
  {
    hide Decimal, ParseDigits;
    if n < 0 {
      ParseDecimal(-n);
      assert Signed(n)[1..] == Decimal(-n);
    } else {
      ParseDecimal(n);
      assert Decimal(n)[0] in Decimal(n);
    }
  }

  const EXIT := "exit code: "

  /** The exit code that a red line names. */
  function CodeShown(text: string): Option<int> {
    if RED + EXIT <= text && |RED + EXIT| + |RESET| <= |text| && text[|text| - |RESET|..] == RESET
    then ReadSigned(text[|RED + EXIT|..|text| - |RESET|]) else None
  }

  /** An exit code is shown exactly when it is not 0, on a line of its own, and reads back. */
  lemma CodeReads(code: int)
    ensures FormatEvent(Complete(code)).None? <==> code == 0
    ensures code != 0 ==>
              exists line :: FormatEvent(Complete(code)) == Some(line + [NEWLINE]) && CodeShown(line) == Some(code)
  {
    if code != 0 {
      var line := RED + EXIT + Signed(code) + RESET;
      assert FormatEvent(Complete(code)) == Some(line + [NEWLINE]);
      SignedReads(code);
      MiddleOf(RED + EXIT, Signed(code), RESET);
    }
  }

  lemma MiddleOf(a: string, b: string, c: string)
    ensures var s := a + b + c;
            a <= s && |a| + |c| <= |s| && s[|s| - |c|..] == c && s[|a|..|s| - |c|] == b
  {
  }

  /** What is on stderr is shown in its colour. */
  function Errors(stderr: string): string {
    if stderr == "" then "" else GRAY + stderr + RESET
  }

  /** A reply shows its lines, what is on stderr, and its exit code unless that is 0. */
  lemma ShownReply(r: Reply)
    ensures var front := Concat(r.sent) + Errors(r.stderr);
            if r.exitCode == 0 then Shown(ReplyEvents(r)) == front
            else exists line :: Shown(ReplyEvents(r)) == front + line + [NEWLINE] && CodeShown(line) == Some(r.exitCode)
  {
    hide CodeShown;
    ShownLines(r.sent);
    CodeReads(r.exitCode);
    var errors, last := if r.stderr == "" then [] else [Stderr(r.stderr)], [Complete(r.exitCode)];
    assert ReplyEvents(r) == StdoutEvents(r.sent) + errors + last;
    ShownAppend(StdoutEvents(r.sent) + errors, last);
    ShownAppend(StdoutEvents(r.sent), errors);
    ShownOne(Stderr(r.stderr));
    ShownOne(Complete(r.exitCode));
    var front := Concat(r.sent) + Errors(r.stderr);
    assert Shown(StdoutEvents(r.sent) + errors) == front;
    if r.exitCode == 0 {
      assert front + "" == front;
    } else {
      var line :| FormatEvent(Complete(r.exitCode)) == Some(line + [NEWLINE]) && CodeShown(line) == Some(r.exitCode);
      Regroup(front, line, [NEWLINE]);
    }
  }

  lemma ShownOne(e: Event)
    ensures Shown([e]) == if FormatEvent(e).Some? then FormatEvent(e).value else ""
  {
    assert [e][1..] == [];
    var text := if FormatEvent(e).Some? then FormatEvent(e).value else "";
    assert text + "" == text;
  }

  // ---- how much ink a text has ----

  function Ink(s: string): nat {
    if s == "" then 0 else (if s[0] == NEWLINE then 0 else 1) + Ink(s[1..])
  }

  lemma {:induction false} InkAppend(a: string, b: string)
    ensures Ink(a + b) == Ink(a) + Ink(b)
  {
    if a == "" {
      assert a + b == b;
    } else {
      assert (a + b)[1..] == a[1..] + b;
      InkAppend(a[1..], b);
    }
  }

  lemma {:induction false} InkNone(s: string)
    requires forall c | c in s :: c == NEWLINE
    ensures Ink(s) == 0
  {
    if s != "" {
      assert s[0] in s && forall c | c in s[1..] :: c in s;
      InkNone(s[1..]);
    }
  }

  lemma StripInk(s: string)
    ensures Ink(OutputBlock.StripNewlines(s)) == Ink(s)
  {
    var body := OutputBlock.StripNewlines(s);
    var tail := s[|body|..];
    assert s == body + tail;
    InkAppend(body, tail);
    InkNone(tail);
  }

  lemma DroppedInk(x: string)
    requires NEWLINE !in x
    ensures Ink(DropReturn(x)) <= Ink(x) && (DropReturn(x) != x ==> Ink(DropReturn(x)) < Ink(x))
  {
    var r := DropReturn(x);
    if r != x {
      assert x == r + [RETURN];
      InkAppend(r, [RETURN]);
      assert [RETURN][1..] == "";
    }
  }

  lemma {:induction false} PrintInk(text: string)
    requires EndsLine(text)
    ensures Ink(Concat(Texts(LinesOf(text)))) <= Ink(text)
    ensures HasReturnNewline(text) ==> Ink(Concat(Texts(LinesOf(text)))) < Ink(text)
    decreases |text|
  {
    if text != "" {
      CutSound(text, NEWLINE);
      assert text[|text| - 1] in text;
      var (x, y) := Cut(text, NEWLINE).value;
      assert y != "" ==> y[|y| - 1] == text[|text| - 1];
      PrintInk(y);
      FirstLineReturn(x, y);
      DroppedInk(x);
      var rest := Concat(Texts(LinesOf(y)));
      assert Texts(LinesOf(text))[1..] == Texts(LinesOf(y));
      assert Concat(Texts(LinesOf(text))) == (DropReturn(x) + [NEWLINE]) + rest;
      InkAppend(DropReturn(x) + [NEWLINE], rest);
      InkAppend(DropReturn(x), [NEWLINE]);
      InkAppend(x + [NEWLINE], y);
      InkAppend(x, [NEWLINE]);
    }
  }

  /** A final empty line carries no ink. */
  lemma EmitInk(lines: seq<string>)
    ensures Ink(Concat(Texts(Emit(lines)))) == Ink(Concat(Texts(lines)))
  {
    if Emit(lines) != lines {
      assert lines == Emit(lines) + [""];
      TextsAppend(Emit(lines), [""]);
      ConcatAppend(Texts(Emit(lines)), Texts([""]));
      InkAppend(Concat(Texts(Emit(lines))), Concat(Texts([""])));
      var last := Texts([""]);
      assert last[0] == "" + [NEWLINE] == [NEWLINE] && last[1..] == [] && Concat(last) == [NEWLINE] + "";
      InkNone(Concat(last));
    }
  }

  /** What is shown of output `o` is `o` without its newlines at the end exactly when it loses no carriage return. */
  lemma ShownOutput(o: string)
    ensures OutputBlock.StripNewlines(Concat(Texts(Emit(LinesOf(o + [NEWLINE]))))) == OutputBlock.StripNewlines(o)
            <==> !HasReturnNewline(o + [NEWLINE])
  {
    hide HasReturnNewline, LinesOf, Texts, Emit, Concat, OutputBlock.StripNewlines, Terminated;
    SentText(o);
    if HasReturnNewline(o + [NEWLINE]) {
      LostInk(o);
      StripInk(Concat(Texts(Emit(LinesOf(o + [NEWLINE])))));
      StripInk(o);
    } else {
      StripTerminated(o);
    }
  }

  lemma StripTerminated(o: string)
    ensures OutputBlock.StripNewlines(Terminated(o)) == OutputBlock.StripNewlines(o)
  {
    if Terminated(o) != o { assert (o + [NEWLINE])[..|o|] == o; }
  }

  lemma LostInk(o: string)
    requires HasReturnNewline(o + [NEWLINE])
    ensures Ink(Concat(Texts(Emit(LinesOf(o + [NEWLINE]))))) < Ink(o)
  {
    hide HasReturnNewline, LinesOf, Texts, Emit, Concat;
    PrintInk(o + [NEWLINE]);
    EmitInk(LinesOf(o + [NEWLINE]));
    InkAppend(o, [NEWLINE]);
    InkNone([NEWLINE]);
  }

  // ---- how many newlines ----

  function Newlines(s: string): int {
    |s| - Ink(s)
  }

  lemma {:induction false} LinesCount(text: string)
    requires EndsLine(text)
    ensures |LinesOf(text)| == Newlines(text) && forall l | l in LinesOf(text) :: NEWLINE !in l
    decreases |text|
  {
    if text != "" {
      CutSound(text, NEWLINE);
      assert text[|text| - 1] in text;
      var (x, y) := Cut(text, NEWLINE).value;
      assert y != "" ==> y[|y| - 1] == text[|text| - 1];
      LinesCount(y);
      InkAppend(x + [NEWLINE], y);
      InkAppend(x, [NEWLINE]);
      InkNone([NEWLINE]);
      InkAll(x);
    }
  }

  lemma {:induction false} InkAll(s: string)
    requires NEWLINE !in s
    ensures Ink(s) == |s|
  {
    if s != "" { InkAll(s[1..]); }
  }

  lemma {:induction false} TextsCount(lines: seq<string>)
    requires forall l | l in lines :: NEWLINE !in l
    ensures Newlines(Concat(Texts(lines))) == |lines|
  {
    if lines != [] {
      assert lines[0] in lines && forall l | l in lines[1..] :: l in lines;
      assert Texts(lines)[1..] == Texts(lines[1..]);
      TextsCount(lines[1..]);
      InkAppend(lines[0] + [NEWLINE], Concat(Texts(lines[1..])));
      InkAppend(lines[0], [NEWLINE]);
      InkNone([NEWLINE]);
      InkAll(lines[0]);
    }
  }

  /** What is sent has at least the newlines of the output. */
  lemma SentNewlines(o: string)
    ensures Newlines(Concat(Texts(Emit(LinesOf(o + [NEWLINE]))))) >= Newlines(o)
  {
    var lines := LinesOf(o + [NEWLINE]);
    LinesCount(o + [NEWLINE]);
    InkAppend(o, [NEWLINE]);
    InkNone([NEWLINE]);
    assert forall l | l in Emit(lines) :: l in lines;
    TextsCount(Emit(lines));
  }

  /** One more if its last line is not empty and lacks a newline. */
  lemma SentMore(o: string)
    requires o != "" && o[|o| - 1] !in {NEWLINE, RETURN}
    ensures Newlines(Concat(Texts(Emit(LinesOf(o + [NEWLINE]))))) > Newlines(o)
  {
    hide LinesOf, Texts, Ink;
    var t := o + [NEWLINE];
    NoEmptyTail(t);
    LinesCount(t);
    InkAppend(o, [NEWLINE]);
    InkNone([NEWLINE]);
    TextsCount(LinesOf(t));
  }

  lemma StripFewer(o: string)
    ensures Newlines(OutputBlock.StripNewlines(o)) <= Newlines(o)
    ensures OutputBlock.StripNewlines(o) != o ==> Newlines(OutputBlock.StripNewlines(o)) < Newlines(o)
  {
    var body := OutputBlock.StripNewlines(o);
    var tail := o[|body|..];
    assert o == body + tail;
    InkAppend(body, tail);
    InkNone(tail);
  }

  /** A stray newline on stderr is shown, and no stdout text looks like what is then shown. */
  lemma StrayShows(o: string, stray: string)
    requires stray != "" && forall c | c in stray :: c == NEWLINE
    ensures var sent := Concat(Texts(Emit(LinesOf(o + [NEWLINE]))));
            OutputBlock.StripNewlines(sent + (GRAY + stray + RESET)) != OutputBlock.StripNewlines(o)
  {
    hide LinesOf, Texts, Emit, Concat, Ink;
    var sent := Concat(Texts(Emit(LinesOf(o + [NEWLINE]))));
    var shown := sent + (GRAY + stray + RESET);
    SentNewlines(o);
    StripFewer(o);
    InkAppend(sent, GRAY + stray + RESET);
    InkAppend(GRAY + stray, RESET);
    InkAppend(GRAY, stray);
    InkNone(stray);
    InkBound(GRAY);
    InkBound(RESET);
    assert shown[|shown| - 1] == RESET[|RESET| - 1];
    assert OutputBlock.StripNewlines(shown) == shown;
  }

  /** An exit code is shown, and no stdout text looks like what is then shown. */
  lemma CodeShows(o: string, stderr: string, line: string)
    requires line != "" && line[|line| - 1] !in {NEWLINE, RETURN}
    ensures var shown := Concat(Texts(Emit(LinesOf(o + [NEWLINE])))) + Errors(stderr) + line;
            && OutputBlock.StripNewlines(shown + [NEWLINE]) == shown
            && shown != OutputBlock.StripNewlines(o)
  {
    hide LinesOf, Texts, Emit, Concat, Ink, Errors, OutputBlock.StripNewlines;
    var sent := Concat(Texts(Emit(LinesOf(o + [NEWLINE]))));
    var shown := sent + Errors(stderr) + line;
    OutputBlock.StripUnique(shown, [NEWLINE]);
    SentNewlines(o);
    StripFewer(o);
    InkAppend(sent + Errors(stderr), line);
    InkAppend(sent, Errors(stderr));
    InkBound(Errors(stderr));
    InkBound(line);
    if shown == o { SentMore(o); }
  }

  lemma {:induction false} InkBound(s: string)
    ensures Ink(s) <= |s|
  {
    if s != "" { InkBound(s[1..]); }
  }

  // ---- the whole way ----

  /** How a response body reaches the page: any chunks that spell it, the last held by the decoder until the end. */
  datatype Delivery = Delivery(chunks: seq<string>, flushed: string)

  ghost predicate Spells(cut: string -> Delivery) {
    forall body :: Concat(cut(body).chunks) + cut(body).flushed == body
  }

  /** The terminal gets to draw some of what is queued. */
  method DrawSome(block: OutputBlock.Block, count: nat)
    requires block.Valid()
    modifies block`screen
    ensures block.Valid() && |block.screen.queue| <= old(|block.screen.queue|)
    ensures count >= old(|block.screen.queue|) ==> block.screen.queue == []
  {
    var k := 0;
    while k < count && block.screen.queue != []
      invariant block.Valid() && k <= count && k + |block.screen.queue| <= old(|block.screen.queue|)
      invariant |block.screen.queue| == old(|block.screen.queue|) - k
    {
      block.DrawNext();
      k := k + 1;
    }
  }

  /** The page's loop over the events; between two of them the terminal draws some of what is queued. */
  method WriteEvents(block: OutputBlock.Block, events: seq<Event>, draws: nat -> nat)
    requires block.Valid()
    modifies block
    ensures block.Valid() && block.stale == old(block.stale)
    ensures block.content == OutputBlock.StripNewlines(old(block.Written()) + Shown(events))
  {
    hide OutputBlock.StripNewlines, FormatEvent;
    ghost var start := block.Written();
    assert Shown([]) == "" && start + "" == start;
    OutputBlock.StripUnique(block.content, block.trailingNewlines);
    for i := 0 to |events|
      invariant block.Valid() && block.Written() == start + Shown(events[..i]) && block.stale == old(block.stale)
      invariant block.content == OutputBlock.StripNewlines(start + Shown(events[..i]))
    {
      OneMoreEvent(start, events, i);
      var text := FormatEvent(events[i]);
      if text.Some? { block.Write(text.value); }
      DrawSome(block, draws(i));
    }
    assert events[..|events|] == events;
  }

  lemma OneMoreEvent(start: string, events: seq<Event>, i: nat)
    requires i < |events|
    ensures start + Shown(events[..i + 1]) ==
              match FormatEvent(events[i])
              case Some(text) => start + Shown(events[..i]) + text
              case None => start + Shown(events[..i])
  {
    assert events[..i + 1] == events[..i] + [events[i]];
    ShownAppend(events[..i], [events[i]]);
    assert [events[i]][1..] == [];
    var text := FormatEvent(events[i]);
    assert Shown([events[i]]) == if text.Some? then text.value else "";
    Regroup(start, Shown(events[..i]), Shown([events[i]]));
  }

  /**
   The page's part: however the body is cut and whenever the terminal draws, the block shows what the reply's events
   say.
   */
  method ShowReply(codec: Codec, r: Reply, cut: string -> Delivery, cols: nat, wide: char -> bool, draws: nat -> nat)
    returns (events: seq<Event>, block: OutputBlock.Block)
    requires codec.Lawful() && Spells(cut) && "" !in r.sent && cols >= 2
    ensures Tells(events, r)
    ensures fresh(block) && block.content == OutputBlock.StripNewlines(Shown(ReplyEvents(r)))
    ensures block.screen.queue == [] && block.screen.shown == block.content
  {
    hide Codec.Lawful, Spells, OutputBlock.StripNewlines, OutputBlock.Next, Tells;
    var w := new ResponseWriter(codec);
    w.WriteReply(r);
    assert "" + Frames(codec, ReplyEvents(r)) == Frames(codec, ReplyEvents(r));
    var d := cut(w.body);
    assert Concat(d.chunks) + d.flushed == w.body by { SpellsBody(cut, w.body); }
    var completed, cancelled;
    events, completed, cancelled := ReadEvents(codec, d.chunks, d.flushed);
    RoundTrip(codec, ReplyEvents(r));
    assert events == ReplyEvents(r) && completed;
    block := new OutputBlock.Block(cols, wide);
    WriteEvents(block, events, draws);
    assert "" + Shown(events) == Shown(events);
    block.Finish();
    DrawSome(block, |block.screen.queue|);
    block.ShowsContent();
  }

  lemma SpellsBody(cut: string -> Delivery, body: string)
    requires Spells(cut)
    ensures Concat(cut(body).chunks) + cut(body).flushed == body
  {
  }

  /** The lines sent, what is on stderr, and then a red line with the exit code. */
  ghost predicate ShowsCode(content: string, r: Reply) {
    exists line :: content == Concat(r.sent) + Errors(r.stderr) + line && CodeShown(line) == Some(r.exitCode)
  }

  /**
   A command that prints nothing on stderr: for every chunking of the response the page gets the command's exit code as
   its last event, and shows it unless it is 0. The block shows the stdout without the newlines at the end exactly when
   the code is 0, no carriage return ends a line of the output, and no marker newline gets into the stderr, left over
   from the command before or heard after the own marker.
   */
  method RunCommand(shell: BashShell, call: Call, codec: Codec, cut: string -> Delivery, cols: nat, wide: char -> bool,
                    draws: nat -> nat)
    returns (r: Reply, events: seq<Event>, block: OutputBlock.Block)
    requires shell.Valid() && shell.InSync() && shell.broken.None? && Short(shell.unreadErr)
    requires WellBehaved(call) && call.Undisturbed() && forall k :: call.deliver(k)
    requires call.Plain() && call.fate.err == ""
    requires codec.Lawful() && Spells(cut) && cols >= 2
    modifies shell, shell.stderrDone
    ensures shell.Valid() && shell.InSync() && shell.broken.None? && Short(shell.unreadErr)
    ensures r.error.None? && r.exitCode == call.fate.code && Tells(events, r)
    ensures block.screen.queue == [] && block.screen.shown == block.content
    ensures block.content == OutputBlock.StripNewlines(call.fate.out)
            <==> && call.fate.code == 0 && !HasReturnNewline(call.fate.out + [NEWLINE])
                 && Leftover(call, old(shell.unreadErr)) == "" && !NewlineHeard(call, old(shell.unreadErr))
    ensures call.fate.code != 0 ==> ShowsCode(block.content, r)
  {
    hide WellBehaved, Codec.Lawful, Spells, OutputBlock.StripNewlines, Texts, Emit, LinesOf, HasReturnNewline, Told,
         Call.Plain, Short, Leftover, NewlineHeard, Tells, CodeShown;
    ghost var unread := shell.unreadErr;
    r := RunOne(shell, call);
    ghost var texts := Texts(Emit(call.OwnLines()));
    assert r.sent == texts && "" !in texts by { AllSent(texts, call); }
    events, block := ShowReply(codec, r, cut, cols, wide, draws);
    StderrIs(call, unread, r, shell.unreadErr);
    ShortLeftover(call, unread);
    CommandShows(call.fate.out, r);
  }

  /** What a reply to output `o` shows, with nothing but stray newlines on stderr. */
  lemma CommandShows(o: string, r: Reply)
    requires r.sent == Texts(Emit(LinesOf(o + [NEWLINE]))) && forall c | c in r.stderr :: c == NEWLINE
    ensures var content := OutputBlock.StripNewlines(Shown(ReplyEvents(r)));
            && (content == OutputBlock.StripNewlines(o)
                <==> r.exitCode == 0 && r.stderr == "" && !HasReturnNewline(o + [NEWLINE]))
            && (r.exitCode != 0 ==> ShowsCode(content, r))
  {
    hide Texts, Emit, LinesOf, HasReturnNewline, OutputBlock.StripNewlines, CodeShown, Concat, Shown;
    ShownReply(r);
    var front := Concat(r.sent) + Errors(r.stderr);
    if r.exitCode != 0 {
      var line :| Shown(ReplyEvents(r)) == front + line + [NEWLINE] && CodeShown(line) == Some(r.exitCode);
      CodeLineEnds(line);
      CodeShows(o, r.stderr, line);
    } else if r.stderr == "" {
      assert front == Concat(r.sent);
      ShownOutput(o);
    } else {
      StrayShows(o, r.stderr);
    }
  }

  lemma CodeLineEnds(line: string)
    requires CodeShown(line).Some?
    ensures line != "" && line[|line| - 1] !in {NEWLINE, RETURN}
  {
    assert line[|line| - 1] == line[|line| - |RESET|..][|RESET| - 1] == RESET[|RESET| - 1];
  }

  lemma AllSent(texts: seq<string>, call: Call)
    requires forall k :: call.deliver(k)
    requires exists lines :: texts == Texts(lines)
    ensures Delivered(texts, call.deliver) == texts && "" !in texts
  {
    var sent := Delivered(texts, call.deliver);
    assert call.deliver(|sent|);
    assert sent == texts[..|sent|];
  }
}
