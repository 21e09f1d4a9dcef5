/** The persistent bash session: one command's output is cut out of two endless streams by marker lines. */
module Shell {
  import opened Text
  import opened LineScan
  import opened StderrMarker

  datatype ShellError =
    | ContextDone
    | WriteFailed
    | SendFailed
    | BadExitCode(text: string)
    | ScanFailed
    | EndOfStdout
    | Hung // the call never returns

  const MAX_INT64: nat := 0x7FFF_FFFF_FFFF_FFFF

  /** Go's Atoi: an optional sign, then digits, within 64 bits. */
  function Atoi(s: string): Option<int> {
    var negative := s != "" && s[0] == '-';
    var digits := if s != "" && (s[0] == '-' || s[0] == '+') then s[1..] else s;
    match if digits == "" then None else ParseDigits(digits)
    case None => None
    case Some(n) =>
      if negative then (if n <= MAX_INT64 + 1 then Some(-n) else None) else if n <= MAX_INT64 then Some(n) else None
  }

  /** Numerals read back, with a sign or without, up to 64 bits; anything but digits behind the sign does not. */
  lemma AtoiReads(n: nat, s: string)
    ensures Atoi(Decimal(n)) == Atoi("+" + Decimal(n)) == if n <= MAX_INT64 then Some(n) else None
    ensures Atoi("-" + Decimal(n)) == if n <= MAX_INT64 + 1 then Some(0 - n) else None
    ensures Atoi(s).Some? ==>
              var digits := if s[0] in "+-" then s[1..] else s;
              digits != "" && forall c | c in digits :: '0' <= c <= '9'
  {
    hide Decimal, ParseDigits;
    ParseDecimal(n);
    assert Decimal(n)[0] in Decimal(n);
    assert ("-" + Decimal(n))[1..] == Decimal(n) == ("+" + Decimal(n))[1..];
    if s != "" { DigitsOnly(if s[0] in "+-" then s[1..] else s); }
  }

  function Marker(nanos: nat): (m: string)
    ensures m != ""
  {
    "__MRK_" + Decimal(nanos) + "_END__"
  }

  /** The marker line of one call starts with the marker of no other call. */
  lemma MarkersDiffer(a: nat, b: nat, code: nat)
    ensures Marker(a) <= Marker(b) + Decimal(code) <==> a == b
  {
    hide Decimal, Cut, Marker;
    var line := Marker(b) + Decimal(code);
    if Marker(a) <= line {
      assert line == Marker(a) + line[|Marker(a)|..];
      MarkerNanos(a, line[|Marker(a)|..]);
      MarkerNanos(b, Decimal(code));
      ParseDecimal(a);
      ParseDecimal(b);
    }
  }

  /** What stands between the second and the third underscore of the markers' tails. */
  lemma MarkerNanos(nanos: nat, tail: string)
    ensures |Marker(nanos) + tail| >= 6
    ensures Cut((Marker(nanos) + tail)[6..], '_').Some?
    ensures Cut((Marker(nanos) + tail)[6..], '_').value.0 == Decimal(nanos)
  {
    hide Decimal, Cut;
    var head: string := "__MRK_";
    var rest := "END__" + tail;
    assert "_END__" == ['_'] + "END__";
    assert Marker(nanos) + tail == head + (Decimal(nanos) + ['_'] + rest);
    CutFirst(Decimal(nanos), rest, '_');
  }

  /**
   What the written script makes bash do: finish with an exit code, or end the session. `err` is what the command
   itself prints on stderr.
   */
  datatype Fate = Completes(out: string, code: nat, err: string) | Exits(out: string)

  /** One ExecuteStream call and everything its surroundings decide. */
  datatype Call = Call(
    nanos: nat,
    ctxDone: bool,
    writeOk: bool,
    /** whether the k-th send finds a receiver before the context ends */
    deliver: nat -> bool,
    fate: Fate,
    /** the stderr bytes of this script, as they arrive */
    errChunks: seq<string>,
    /** stderr reads between the calls, and between the stderr marker and the end of this one */
    stale: nat,
    late: nat,
    readFails: bool)
  {
    function Mark(): string { Marker(nanos) }

    /** A script that runs to its end prints its marker on stderr, whatever is traced or printed around it. */
    ghost predicate Valid() {
      fate.Completes? ==> exists i: nat :: OccursAt(Concat(errChunks), Mark(), i)
    }

    /** Nothing but the script's own marker line follows the command's stderr, and the command does not forge it. */
    ghost predicate Plain() {
      fate.Completes? && Concat(errChunks) == fate.err + Mark() + [NEWLINE] && FirstAfter(fate.err, Mark())
    }

    /** bash prints the command's output, then the script's own lines. */
    function Printed(): string {
      match fate
      case Completes(out, code, _) => out + [NEWLINE] + (Mark() + Decimal(code) + [NEWLINE])
      case Exits(out) => out
    }

    /** The lines of the command itself, before any marker. */
    function OwnLines(): seq<string> {
      if fate.Completes? then LinesOf(fate.out + [NEWLINE]) else LinesOf(fate.out)
    }

    /** No line of the command's output starts like the marker. */
    predicate Quiet() { MarkerAt(OwnLines(), Mark()) == |OwnLines()| }

    predicate Undisturbed() {
      !ctxDone && writeOk && fate.Completes? && fate.code <= 255
    }
  }

  datatype Reply = Reply(exitCode: int, stderr: string, error: Option<ShellError>, sent: seq<string>)

  function MarkerAt(lines: seq<string>, marker: string): (j: nat)
    ensures j <= |lines| && (forall k | 0 <= k < j :: !(marker <= lines[k])) && (j < |lines| ==> marker <= lines[j])
  {
    if lines == [] || marker <= lines[0] then 0 else 1 + MarkerAt(lines[1..], marker)
  }

  /** The sends up to the first that fails. */
  function Delivered(texts: seq<string>, deliver: nat -> bool): (r: seq<string>)
    ensures r <= texts && (forall k: nat | k < |r| :: deliver(k)) && (|r| < |texts| ==> !deliver(|r|))
  {
    if texts == [] then []
    else
      var last := |texts| - 1;
      var front := Delivered(texts[..last], deliver);
      if |front| == last && deliver(last) then texts else front
  }

  /** An empty line held back is sent before the next line, ... */
  function Held(lines: seq<string>): seq<string> {
    if lines != [] && lines[|lines| - 1] == "" then [[NEWLINE]] else []
  }

  /** ... and an empty line is held back. */
  function Now(line: string): seq<string> {
    if line == "" then [] else [line + [NEWLINE]]
  }

  lemma TextsMore(lines: seq<string>, line: string)
    ensures Texts(Emit(lines + [line])) == Texts(Emit(lines)) + Held(lines) + Now(line)
  {
    hide Texts;
    var held, now := if Held(lines) != [] then [""] else [], if line == "" then [] else [line];
    assert lines == Emit(lines) + held;
    assert Emit(lines + [line]) == lines + now;
    TextsAppend(Emit(lines), held);
    TextsAppend(lines, now);
    FewTexts("");
    FewTexts(line);
  }

  lemma FewTexts(line: string)
    ensures Texts([]) == [] && Texts([line]) == [line + [NEWLINE]]
    ensures "" + [NEWLINE] == [NEWLINE]
  {
  }

  /** What has been sent of some lines, whether a send has failed, and whether an empty line is held back. */
  ghost predicate Sent(lines: seq<string>, deliver: nat -> bool, sent: seq<string>, cut: bool, pendingEmpty: bool) {
    var texts := Texts(Emit(lines));
    && sent == Delivered(texts, deliver) && cut == (|sent| < |texts|)
    && (!cut ==> pendingEmpty == (Held(lines) != []))
  }

  lemma SentNone(deliver: nat -> bool)
    ensures Sent([], deliver, [], false, false)
  {
  }

  /** After a failed send nothing more is sent. */
  lemma SentStays(lines: seq<string>, line: string, deliver: nat -> bool, sent: seq<string>, pendingEmpty: bool)
    requires Sent(lines, deliver, sent, true, pendingEmpty)
    ensures Sent(lines + [line], deliver, sent, true, pendingEmpty)
  {
    hide Texts, Emit, Delivered;
    TextsMore(lines, line);
  }

  /** stdout's part of a call that got its script written, with `text` waiting to be read. */
  ghost predicate Streamed(call: Call, text: string, r: Reply, rest: string, broken: Option<ShellError>) {
    var lines := LinesOf(text);
    var j := MarkerAt(lines, call.Mark());
    var texts := Texts(Emit(lines[..j]));
    var cut := |r.sent| < |texts|;
    && r.sent == Delivered(texts, call.deliver)
    && LinesOf(rest) == (if j < |lines| then lines[j + 1..] else [])
    && if j == |lines| then
         && r.error == broken == Some(if call.readFails then ScanFailed else EndOfStdout)
         && r.exitCode == -1 && r.stderr == ""
       else
         var suffix := lines[j][|call.Mark()|..];
         match Atoi(suffix)
         case None =>
           && r.error == Some(BadExitCode(suffix)) && r.exitCode == -1 && r.stderr == ""
           && broken == if cut then Some(SendFailed) else None
         case Some(code) =>
           || r.error == Some(Hung)
           || (broken.None? && if cut then r.error == Some(SendFailed) && r.exitCode == -1 && r.stderr == ""
                               else r.error.None? && r.exitCode == code)
  }

  function Min(a: nat, b: nat): nat { if a < b then a else b }

  /** A channel that is only ever closed. */
  class Signal {
    var closed: bool

    constructor ()
      ensures !closed
    {
      closed := false;
    }

    /** Closing a closed channel panics. */
    method Close()
      requires !closed
      modifies this
      ensures closed
    {
      closed := true;
    }
  }

  class BashShell {
    var broken: Option<ShellError>
    var stderrBuf: string
    var stderrMarker: string
    var stderrDone: Signal?
    // what bash has written and nobody has read yet
    var unreadOut: string
    var unreadErr: seq<string>

    constructor ()
      ensures Valid() && InSync() && broken.None? && unreadOut == "" && unreadErr == []
      ensures stderrDone == null
    {
      broken, stderrBuf, stderrMarker, stderrDone, unreadOut, unreadErr := None, "", "", null, "", [];
    }

    ghost predicate Valid() reads this, stderrDone {
      if stderrDone == null then stderrMarker == "" else stderrDone.closed <==> stderrMarker == ""
    }

    /** Unless broken, every marker written has been read. */
    ghost predicate InSync() reads this {
      broken.None? ==> unreadOut == ""
    }

    method CheckStderrMarker()
      requires Valid()
      modifies this`stderrBuf, this`stderrMarker, stderrDone
      ensures Valid() && (stderrBuf, stderrMarker) == Feed(old(stderrBuf), old(stderrMarker), "")
    {
      assert stderrBuf + "" == stderrBuf;
      if stderrMarker == "" { return; }
      var content := stderrBuf;
      var idx := IndexFrom(content, stderrMarker, 0);
      if idx.None? { return; }
      var markerEnd := idx.value + |stderrMarker|;
      var after := content[markerEnd..];
      if markerEnd < |content| && content[markerEnd] == NEWLINE {
        markerEnd := markerEnd + 1;
      }
      assert content[markerEnd..] == SkipNewline(after);
      stderrBuf := content[..idx.value] + content[markerEnd..];
      stderrMarker := "";
      stderrDone.Close();
    }

    /** One read of the goroutine that follows stderr. */
    method ReadStderr()
      requires Valid() && unreadErr != []
      modifies this`stderrBuf, this`stderrMarker, this`unreadErr, stderrDone
      ensures Valid() && unreadErr == old(unreadErr)[1..]
      ensures (stderrBuf, stderrMarker) == Feed(old(stderrBuf), old(stderrMarker), old(unreadErr)[0])
    {
      hide Feed;
      FeedRead(stderrBuf, stderrMarker, unreadErr[0]);
      stderrBuf := stderrBuf + unreadErr[0];
      unreadErr := unreadErr[1..];
      CheckStderrMarker();
    }

    lemma FeedRead(buf: string, m: string, chunk: string)
      ensures Feed(buf + chunk, m, "") == Feed(buf, m, chunk)
    {
      hide IndexFrom, SkipNewline;
      assert buf + chunk + "" == buf + chunk;
    }

    method ReadSome(count: nat)
      requires Valid()
      modifies this`stderrBuf, this`stderrMarker, this`unreadErr, stderrDone
      ensures Valid() && unreadErr == old(unreadErr)[Min(count, |old(unreadErr)|)..]
      ensures old(stderrMarker) == "" ==>
                && stderrMarker == ""
                && stderrBuf == old(stderrBuf) + Concat(old(unreadErr)[..Min(count, |old(unreadErr)|)])
    {
      hide Feed, Concat;
      var k := 0;
      NothingRead(stderrBuf);
      while k < count && unreadErr != []
        invariant Valid() && k <= count && k <= |old(unreadErr)| && unreadErr == old(unreadErr)[k..]
        invariant old(stderrMarker) == "" ==>
                    stderrMarker == "" && stderrBuf == old(stderrBuf) + Concat(old(unreadErr)[..k])
      {
        ReadOne(old(stderrBuf), stderrBuf, old(unreadErr), k);
        ReadStderr();
        k := k + 1;
      }
    }

    lemma NothingRead(buf: string)
      ensures Concat([]) == "" && buf + "" == buf
    {
    }

    lemma ReadOne(start: string, buf: string, chunks: seq<string>, k: nat)
      requires k < |chunks|
      ensures Feed(buf, "", chunks[k]) == (buf + chunks[k], "")
      ensures start + Concat(chunks[..k + 1]) == start + Concat(chunks[..k]) + chunks[k]
    {
      ConcatAppend(chunks[..k], [chunks[k]]);
      assert chunks[..k + 1] == chunks[..k] + [chunks[k]];
      assert [chunks[k]][1..] == [] && Concat([chunks[k]]) == chunks[k] + "";
    }

    /** Waits until stderrDone is closed; false when that never happens. */
    method AwaitMarker() returns (fired: bool)
      requires Valid() && stderrDone != null
      modifies this`stderrBuf, this`stderrMarker, this`unreadErr, stderrDone
      ensures Valid() && (fired <==> stderrMarker == "")
      ensures (stderrBuf, stderrMarker, unreadErr) == Await(old(stderrBuf), old(stderrMarker), old(unreadErr))
    {
      hide Feed;
      while !stderrDone.closed && unreadErr != []
        invariant Valid()
        invariant Await(stderrBuf, stderrMarker, unreadErr) == Await(old(stderrBuf), old(stderrMarker), old(unreadErr))
        decreases |unreadErr|
      {
        ReadStderr();
      }
      fired := stderrDone.closed;
    }

    method Scan() returns (line: Option<string>)
      modifies this`unreadOut
      ensures if old(unreadOut) == "" then line.None? && unreadOut == ""
              else line == Some(LinesOf(old(unreadOut))[0]) && LinesOf(unreadOut) == LinesOf(old(unreadOut))[1..]
                   && |unreadOut| < |old(unreadOut)|
    {
      CutSound(unreadOut, NEWLINE);
      if unreadOut == "" { return None; }
      var parts := Cut(unreadOut, NEWLINE);
      if parts.None? {
        line := Some(DropReturn(unreadOut));
        unreadOut := "";
      } else {
        line := Some(DropReturn(parts.value.0));
        unreadOut := parts.value.1;
      }
    }

    /** Sends one scanned line, and first the empty line held back before it. */
    method SendLine(line: string, deliver: nat -> bool, sent0: seq<string>, pendingEmpty0: bool,
                    ghost done: seq<string>)
      returns (sent: seq<string>, cut: bool, pendingEmpty: bool)
      requires Sent(done, deliver, sent0, false, pendingEmpty0)
      modifies this`broken
      ensures Sent(done + [line], deliver, sent, cut, pendingEmpty)
      ensures broken == if cut then Some(SendFailed) else old(broken)
    {
      hide Texts, Emit, Delivered;
      sent, cut, pendingEmpty := sent0, false, pendingEmpty0;
      ghost var texts := Texts(Emit(done));
      TextsMore(done, line);
      if pendingEmpty {
        if !deliver(|sent|) {
          cut, broken := true, Some(SendFailed);
          return;
        }
        sent := sent + [[NEWLINE]];
        pendingEmpty := false;
      }
      assert sent == texts + Held(done);
      assert (done + [line])[|done + [line]| - 1] == line;
      if line == "" {
        assert sent + [] == sent;
        pendingEmpty := true;
      } else {
        if !deliver(|sent|) {
          cut, broken := true, Some(SendFailed);
          return;
        }
        sent := sent + [line + [NEWLINE]];
      }
    }

    /** Sends the lines before the marker line, or drains them once a send has failed; None when stdout ends first. */
    method ReadUntilMarker(marker: string, deliver: nat -> bool)
      returns (suffix: Option<string>, sent: seq<string>, cut: bool)
      modifies this`unreadOut, this`broken
      ensures var lines := LinesOf(old(unreadOut));
              var j := MarkerAt(lines, marker);
              var texts := Texts(Emit(lines[..j]));
              && sent == Delivered(texts, deliver) && cut == (|sent| < |texts|)
              && suffix == (if j < |lines| then Some(lines[j][|marker|..]) else None)
              && LinesOf(unreadOut) == (if j < |lines| then lines[j + 1..] else [])
      ensures broken == if cut then Some(SendFailed) else old(broken)
    {
      hide Texts, Emit, Delivered, Held, LinesOf, MarkerAt;
      ghost var lines := LinesOf(unreadOut);
      ghost var j := MarkerAt(lines, marker);
      ghost var i := 0;
      var pendingEmpty := false;
      sent, cut := [], false;
      assert lines[..0] == [];
      SentNone(deliver);
      while true
        invariant i <= j && LinesOf(unreadOut) == lines[i..]
        invariant Sent(lines[..i], deliver, sent, cut, pendingEmpty)
        invariant broken == if cut then Some(SendFailed) else old(broken)
        decreases |unreadOut|
      {
        var line := Scan();
        if line.None? { return None, sent, cut; }
        if marker <= line.value { return Some(line.value[|marker|..]), sent, cut; }
        ghost var done := lines[..i];
        assert lines[..i + 1] == done + [line.value];
        i := i + 1;
        if cut {
          SentStays(done, line.value, deliver, sent, pendingEmpty);
          continue;
        }
        sent, cut, pendingEmpty := SendLine(line.value, deliver, sent, pendingEmpty, done);
      }
    }

    /** Follows both streams of a written script up to their markers. */
    method ReadReply(call: Call, ghost unread: seq<string>) returns (r: Reply)
      requires Valid() && call.Valid() && broken.None?
      requires stderrDone != null && stderrBuf == "" && stderrMarker == call.Mark()
      requires unreadErr == unread[Min(call.stale, |unread|)..] + call.errChunks
      modifies this, stderrDone
      ensures Valid() && stderrDone == old(stderrDone)
      ensures Streamed(call, old(unreadOut), r, unreadOut, broken)
      ensures Told(call, unread, r, unreadErr)
    {
      hide Await, LinesOf, Texts, Emit, Delivered, MarkerAt, Decimal, Atoi, Marker, Concat;
      var marker := call.Mark();
      var suffix, sent, cut := ReadUntilMarker(marker, call.deliver);
      if suffix.None? {
        broken := Some(if call.readFails then ScanFailed else EndOfStdout);
        return Reply(-1, "", broken, sent);
      }
      var exitCode := Atoi(suffix.value);
      if exitCode.None? { return Reply(-1, "", Some(BadExitCode(suffix.value)), sent); }
      var fired := AwaitMarker();
      if !fired { return Reply(-1, "", Some(Hung), sent); }
      ReadSome(call.late);
      var stderr := stderrBuf;
      if cut {
        broken := None;
        return Reply(-1, "", Some(SendFailed), sent);
      }
      return Reply(exitCode.value, stderr, None, sent);
    }

    /** Runs one command. */
    method ExecuteStream(call: Call) returns (r: Reply)
      requires Valid() && call.Valid()
      modifies this, stderrDone
      ensures Valid() && (stderrDone == old(stderrDone) || fresh(stderrDone))
      ensures old(broken).Some? ==>
                && r == Reply(-1, "", old(broken), []) && broken == old(broken)
                && unreadOut == old(unreadOut) && unreadErr == old(unreadErr)
      ensures old(broken).None? && call.ctxDone ==>
                && r == Reply(-1, "", Some(ContextDone), []) && broken.None? && unreadOut == old(unreadOut)
                && unreadErr == old(unreadErr)[Min(call.stale, |old(unreadErr)|)..]
      ensures old(broken).None? && !call.ctxDone && !call.writeOk ==>
                r == Reply(-1, "", Some(WriteFailed), []) && broken == r.error
      ensures old(broken).None? && !call.ctxDone && call.writeOk ==>
                Streamed(call, old(unreadOut) + call.Printed(), r, unreadOut, broken)
      ensures old(broken).None? && !call.ctxDone && call.writeOk ==>
                Told(call, old(unreadErr), r, unreadErr)
    {
      hide Marker, Call.Printed, Call.Valid, Streamed, Told;
      if broken.Some? { return Reply(-1, "", broken, []); }
      ReadSome(call.stale);
      stderrBuf := "";
      var marker := call.Mark();
      stderrMarker := marker;
      stderrDone := new Signal();
      if call.ctxDone { return Reply(-1, "", Some(ContextDone), []); }
      if !call.writeOk {
        broken := Some(WriteFailed);
        return Reply(-1, "", broken, []);
      }
      unreadOut := unreadOut + call.Printed();
      unreadErr := unreadErr + call.errChunks;
      r := ReadReply(call, old(unreadErr));
    }
  }

  /** The stderr chunks a command gets: what the ones before left unread, and its own. */
  function Pending(call: Call, unread: seq<string>): seq<string> {
    unread[Min(call.stale, |unread|)..] + call.errChunks
  }

  function Leftover(call: Call, unread: seq<string>): string {
    Concat(unread[Min(call.stale, |unread|)..])
  }

  /**
   stderr's part, from the chunks and the reads alone: the call hangs when the marker never comes; otherwise the reply
   has what was read up to the marker and in the late reads, and the rest stays unread.
   */
  ghost predicate Told(call: Call, unread: seq<string>, r: Reply, unread': seq<string>) {
    var (_, m, rest) := Await("", call.Mark(), Pending(call, unread));
    && (r.error == Some(Hung) ==> m != "")
    && (r.error.None? ==> r.stderr == Heard(call.Mark(), Pending(call, unread), call.late))
    && (r.error.None? || r.error == Some(SendFailed) ==> m == "" && unread' == rest[Min(call.late, |rest|)..])
  }

  /** Every byte a plain command can read from stderr. */
  lemma PlainBytes(call: Call, unread: seq<string>)
    requires call.Plain()
    ensures Concat(Pending(call, unread)) == Leftover(call, unread) + call.fate.err + call.Mark() + [NEWLINE]
  {
    ConcatAppend(unread[Min(call.stale, |unread|)..], call.errChunks);
    var l, e, m := Leftover(call, unread), call.fate.err, call.Mark();
    assert l + (e + m + [NEWLINE]) == l + e + m + [NEWLINE];
  }

  /** A script that runs to its end never hangs, whatever bytes surround its marker. */
  lemma NeverHangs(call: Call, unread: seq<string>)
    requires call.Valid() && call.fate.Completes?
    ensures Await("", call.Mark(), Pending(call, unread)).1 == ""
  {
    hide Await, Concat, Marker;
    var l, all, m := Leftover(call, unread), Concat(call.errChunks), call.Mark();
    var i: nat :| OccursAt(all, m, i);
    ConcatAppend(unread[Min(call.stale, |unread|)..], call.errChunks);
    assert (l + all)[|l| + i..|l| + i + |m|] == all[i..i + |m|];
    assert "" + Concat(Pending(call, unread)) == l + all;
    assert OccursAt("" + Concat(Pending(call, unread)), m, |l| + i);
    AwaitFires("", m, Pending(call, unread), |l| + i);
  }
}
