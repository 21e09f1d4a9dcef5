/** What every sequence of commands in one bash session keeps. */
module ShellSession {
  import opened Text
  import opened LineScan
  import opened StderrMarker
  import opened Shell

  // ---- one command ----

  lemma AtoiDecimal(code: nat)
    requires code <= MAX_INT64
    ensures Atoi(Decimal(code)) == Some(code)
  {
    ParseDecimal(code);
    assert Decimal(code)[0] in Decimal(code);
  }

  /** The marker line is scanned as it was printed. */
  lemma MarkerLine(call: Call, code: nat)
    ensures LinesOf(call.Mark() + Decimal(code) + [NEWLINE]) == [call.Mark() + Decimal(code)]
  {
    assert NEWLINE !in "__MRK_" && NEWLINE !in "_END__";
    assert NEWLINE !in call.Mark();
    var line := call.Mark() + Decimal(code);
    assert line[|line| - 1] == Decimal(code)[|Decimal(code)| - 1];
    assert DropReturn(line) == line by { assert Decimal(code)[|Decimal(code)| - 1] in Decimal(code); }
    OneLine(line);
  }

  lemma PrintedLines(call: Call)
    requires call.fate.Completes?
    ensures LinesOf(call.Printed()) == call.OwnLines() + [call.Mark() + Decimal(call.fate.code)]
  {
    LinesConcat(call.fate.out, call.Mark() + Decimal(call.fate.code) + [NEWLINE]);
    MarkerLine(call, call.fate.code);
  }

  lemma {:induction false} FirstMarker(own: seq<string>, last: string, marker: string)
    requires marker <= last
    ensures MarkerAt(own + [last], marker) == MarkerAt(own, marker)
  {
    if own != [] && !(marker <= own[0]) {
      assert (own + [last])[1..] == own[1..] + [last];
      FirstMarker(own[1..], last, marker);
    }
  }

  /**
   A synchronized session's command: quiet output means exactly its own lines are sent, up to the first failed send,
   the marker is consumed and the session goes on; output that forges the marker leaves stdout behind.
   */
  lemma OwnOutput(call: Call, r: Reply, rest: string, broken: Option<ShellError>)
    requires Streamed(call, call.Printed(), r, rest, broken) && call.fate.Completes? && call.fate.code <= 255
    ensures call.Quiet() ==>
              var texts := Texts(Emit(call.OwnLines()));
              && r.sent == Delivered(texts, call.deliver) && rest == ""
              && (r.error == Some(Hung) ||
                  (broken.None? && if |r.sent| < |texts| then r.error == Some(SendFailed)
                                   else r.error.None? && r.exitCode == call.fate.code))
    ensures rest == "" <==> call.Quiet()
  {
    hide Texts, Emit, Delivered, Call.Printed, Marker, Decimal, Atoi;
    var own, m := call.OwnLines(), call.Mark();
    var last := m + Decimal(call.fate.code);
    PrintedLines(call);
    FirstMarker(own, last, m);
    AtoiDecimal(call.fate.code);
    assert (own + [last])[..MarkerAt(own, m)] == own[..MarkerAt(own, m)];
    if call.Quiet() { assert own[..|own|] == own; }
  }

  ghost predicate Short(unread: seq<string>) {
    Concat(unread) == "" || Concat(unread) == [NEWLINE]
  }

  lemma ShortLeftover(call: Call, unread: seq<string>)
    requires Short(unread)
    ensures Leftover(call, unread) == "" || Leftover(call, unread) == [NEWLINE]
  {
    var k := Min(call.stale, |unread|);
    ConcatAppend(unread[..k], unread[k..]);
    assert unread == unread[..k] + unread[k..];
    assert Concat(unread[k..]) == Concat(unread)[|Concat(unread[..k])|..];
  }

  /** The marker's newline comes in a chunk of its own, and a read between marker and reply takes it in. */
  predicate NewlineHeard(call: Call, unread: seq<string>)
    requires call.fate.Completes?
  {
    ReadsBeyond(Pending(call, unread), |Leftover(call, unread)| + |call.fate.err| + |call.Mark()|, call.late)
  }

  /**
   A plain command's stderr, from how its bytes arrive: what was left over, its own, and the marker's newline exactly
   when that is heard. At most that newline is left unread.
   */
  lemma StderrIs(call: Call, unread: seq<string>, r: Reply, unread': seq<string>)
    requires Told(call, unread, r, unread') && call.Plain() && Short(unread)
    ensures r.error.None? ==>
              r.stderr == Leftover(call, unread) + call.fate.err + if NewlineHeard(call, unread) then [NEWLINE] else ""
    ensures r.error.None? || r.error == Some(SendFailed) ==> Short(unread')
  {
    hide FirstAfter, Leftover, Heard, Await, Concat, ReadsBeyond, Covering;
    var l, e, m := Leftover(call, unread), call.fate.err, call.Mark();
    ShortLeftover(call, unread);
    FirstAfterNewline(e, m);
    assert "" + e == e;
    PlainBytes(call, unread);
    HeardExactly(m, Pending(call, unread), call.late, l + e);
    RestShort(call, unread, r, unread');
  }

  lemma RestShort(call: Call, unread: seq<string>, r: Reply, unread': seq<string>)
    requires Told(call, unread, r, unread') && call.Plain()
        && FirstAfter(Leftover(call, unread) + call.fate.err, call.Mark())
    ensures r.error.None? || r.error == Some(SendFailed) ==> Short(unread')
  {
    hide FirstAfter, Heard, Concat, Covering, Leftover, Await, Short;
    var e, m, chunks := Leftover(call, unread) + call.fate.err, call.Mark(), Pending(call, unread);
    PlainBytes(call, unread);
    MarkerIsText(e, m);
    assert "" + Concat(chunks) == Concat(chunks);
    AwaitFrom("", m, chunks, e);
    var rest := Await("", m, chunks).2;
    ShortTail(rest, Min(call.late, |rest|));
  }

  lemma ShortTail(rest: seq<string>, l: nat)
    requires l <= |rest| && Concat(rest) in {"", [NEWLINE]}
    ensures Short(rest[l..])
  {
    hide Concat;
    ConcatAppend(rest[..l], rest[l..]);
    assert rest == rest[..l] + rest[l..];
    assert Concat(rest[l..]) == Concat(rest)[|Concat(rest[..l])|..];
  }

  /** The reply's stderr is the command's own exactly when no newline was left over and the marker's is not heard. */
  lemma StderrExact(call: Call, unread: seq<string>, r: Reply, unread': seq<string>)
    requires Told(call, unread, r, unread') && call.Plain() && Short(unread) && r.error.None?
    ensures r.stderr == call.fate.err <==> Leftover(call, unread) == "" && !NewlineHeard(call, unread)
  {
    hide Told, FirstAfter, Short, Leftover, NewlineHeard;
    StderrIs(call, unread, r, unread');
    ShortLeftover(call, unread);
    assert "" + call.fate.err == call.fate.err && call.fate.err + "" == call.fate.err;
  }

  // ---- any sequence of commands ----

  /** A command whose stdout does not forge the marker; its stderr may be anything the marker is somewhere in. */
  ghost predicate WellBehaved(call: Call) {
    call.Valid() && call.Quiet() && (call.fate.Completes? ==> call.fate.code <= 255)
  }

  /** Whether the script of this call is written to an unbroken session. */
  predicate Runs(call: Call) {
    !call.ctxDone && call.writeOk
  }

  /** What a call started on an unbroken session sends, returns and leaves. */
  ghost predicate Answers(call: Call, r: Reply, after: Option<ShellError>) {
    if call.ctxDone then r == Reply(-1, "", Some(ContextDone), []) && after.None?
    else if !call.writeOk then r == Reply(-1, "", Some(WriteFailed), []) && after == Some(WriteFailed)
    else if call.fate.Exits? then r.exitCode == -1 && r.error.Some? && after == r.error
    else
      var texts := Texts(Emit(call.OwnLines()));
      && after.None? && r.sent == Delivered(texts, call.deliver)
      && if |r.sent| < |texts| then r.error == Some(SendFailed) && r.exitCode == -1 && r.stderr == ""
         else r.error.None? && r.exitCode == call.fate.code
  }

  lemma CallAnswers(call: Call, unread: seq<string>, r: Reply, rest: string, unread': seq<string>,
                    after: Option<ShellError>)
    requires WellBehaved(call) && Runs(call)
    requires Streamed(call, call.Printed(), r, rest, after) && Told(call, unread, r, unread')
    ensures Answers(call, r, after) && (after.None? ==> rest == "")
  {
    if call.fate.Exits? {
    } else {
      NeverHangs(call, unread);
      SentOrCut(call, r, rest, after);
    }
  }

  lemma SentOrCut(call: Call, r: Reply, rest: string, after: Option<ShellError>)
    requires WellBehaved(call) && call.fate.Completes? && r.error != Some(Hung)
    requires Streamed(call, call.Printed(), r, rest, after)
    ensures var texts := Texts(Emit(call.OwnLines()));
            && after.None? && rest == "" && r.sent == Delivered(texts, call.deliver)
            && if |r.sent| < |texts| then r.error == Some(SendFailed) && r.exitCode == -1 && r.stderr == ""
               else r.error.None? && r.exitCode == call.fate.code
  {
    hide Texts, Emit, Delivered, Call.Printed, Marker, Call.Valid, LinesOf, Call.OwnLines, Atoi;
    OwnOutput(call, r, rest, after);
  }

  /** Whether the next call finds the session broken. */
  predicate Breaks(call: Call) {
    !call.ctxDone && (!call.writeOk || call.fate.Exits?)
  }

  /** How a call on an unbroken session changes what is unread on stderr, and what it hears of it. */
  ghost predicate Hears(call: Call, unread: seq<string>, r: Reply, unread': seq<string>) {
    if Runs(call) then Told(call, unread, r, unread')
    else call.ctxDone ==> unread' == unread[Min(call.stale, |unread|)..]
  }

  /**
   One call in a session: an unbroken one answers, and breaks exactly on a failed write or the end of bash; a broken
   one refuses and stays as it is.
   */
  ghost predicate Follows(call: Call, broken: Option<ShellError>, unread: seq<string>, r: Reply,
                          broken': Option<ShellError>, unread': seq<string>)
  {
    if broken.None? then Answers(call, r, broken') && Hears(call, unread, r, unread')
        && (broken'.Some? <==> Breaks(call))
    else r == Reply(-1, "", broken, []) && broken' == broken && unread' == unread
  }

  /**
   Commands one after another, cancelled or not, tracing on stderr or not: an unbroken session has no stdout marker
   outstanding, so every command gets its own lines and exit code; only a failed write or the end of bash breaks it,
   and then for good. `left` is what is unread on stderr before each call; what a call hears follows from it.
   */
  method RunAll(shell: BashShell, calls: seq<Call>)
    returns (replies: seq<Reply>, ghost broken: seq<Option<ShellError>>, ghost left: seq<seq<string>>)
    requires shell.Valid() && shell.InSync()
    requires forall c | c in calls :: WellBehaved(c)
    modifies shell, shell.stderrDone
    ensures shell.Valid() && shell.InSync()
    ensures |replies| == |calls| && |broken| == |left| == |calls| + 1
    ensures broken[0] == old(shell.broken) && broken[|calls|] == shell.broken
    ensures left[0] == old(shell.unreadErr) && left[|calls|] == shell.unreadErr
    ensures forall i | 0 <= i < |calls| ::
              Follows(calls[i], broken[i], left[i], replies[i], broken[i + 1], left[i + 1])
  {
    hide WellBehaved, Follows, BashShell.InSync;
    replies, broken, left := [], [shell.broken], [shell.unreadErr];
    for k := 0 to |calls|
      invariant shell.Valid() && shell.InSync()
      invariant shell.stderrDone == old(shell.stderrDone) || fresh(shell.stderrDone)
      invariant |replies| == k && |broken| == |left| == k + 1
      invariant broken[0] == old(shell.broken) && broken[k] == shell.broken
      invariant left[0] == old(shell.unreadErr) && left[k] == shell.unreadErr
      invariant forall i | 0 <= i < k ::
                  Follows(calls[i], broken[i], left[i], replies[i], broken[i + 1], left[i + 1])
    {
      var r := RunOne(shell, calls[k]);
      replies, broken, left := replies + [r], broken + [shell.broken], left + [shell.unreadErr];
    }
  }

  method RunOne(shell: BashShell, call: Call) returns (r: Reply)
    requires shell.Valid() && shell.InSync() && WellBehaved(call)
    modifies shell, shell.stderrDone
    ensures shell.Valid() && shell.InSync()
    ensures shell.stderrDone == old(shell.stderrDone) || fresh(shell.stderrDone)
    ensures Follows(call, old(shell.broken), old(shell.unreadErr), r, shell.broken, shell.unreadErr)
  {
    hide Streamed, Told, Call.Quiet, Call.Printed, Call.Valid, Texts, Emit, Delivered, LinesOf;
    r := shell.ExecuteStream(call);
    if old(shell.broken).None? && Runs(call) {
      assert "" + call.Printed() == call.Printed();
      CallAnswers(call, old(shell.unreadErr), r, shell.unreadOut, shell.unreadErr, shell.broken);
    }
  }

  /** Over plain commands at most a newline is ever left unread, so the exact condition for stderr keeps applying. */
  lemma StaysShort(call: Call, unread: seq<string>, r: Reply, unread': seq<string>, after: Option<ShellError>)
    requires Answers(call, r, after) && Hears(call, unread, r, unread') && Short(unread)
    requires after.None? && (Runs(call) ==> call.Plain())
    ensures Short(unread')
  {
    if Runs(call) { StderrIs(call, unread, r, unread'); } else { ShortLeftover(call, unread); }
  }

  // ---- the other side of the conditions ----

  /** A silent command with exit code 1 whose stdout is `out`. */
  function Sample(out: string, errChunks: seq<string>): Call {
    Call(0, false, true, _ => true, Completes(out, 1, ""), errChunks, 0, 1, false)
  }

  lemma MarkerPlain(nanos: nat)
    ensures NEWLINE !in Marker(nanos) && FirstAfter("", Marker(nanos))
        && OccursAt(Marker(nanos) + [NEWLINE], Marker(nanos), 0)
  {
    assert NEWLINE !in "__MRK_" && NEWLINE !in "_END__";
  }

  lemma TwoChunks(a: string, b: string)
    ensures Concat([a, b]) == a + b && Concat([a + b]) == a + b && Concat([a]) == a && Concat([]) == ""
  {
    assert [a, b][1..] == [b] && [b][1..] == [] && b + "" == b && Concat([b]) == b;
    assert [a][1..] == [] && a + "" == a && [a + b][1..] == [] && (a + b) + "" == a + b;
  }

  /** The marker and its newline in two chunks, both read before the reply: an empty stderr reads as a stray newline. */
  method StrayNewline() returns (call: Call, shell: BashShell, r: Reply)
    ensures WellBehaved(call) && call.Plain() && call.fate.err == "" && NewlineHeard(call, [])
    ensures shell.Valid() && shell.InSync() && Follows(call, None, [], r, shell.broken, shell.unreadErr)
    ensures r == Reply(1, [NEWLINE], None, [])
  {
    var m := Marker(0);
    call := Sample("", [m, [NEWLINE]]);
    shell := new BashShell();
    MarkerPlain(0);
    TwoChunks(m, [NEWLINE]);
    SilentLines(call);
    StrayHeard(call, m);
    r := RunOne(shell, call);
    StderrIs(call, [], r, shell.unreadErr);
  }

  lemma SilentLines(call: Call)
    requires call.fate.Completes? && call.fate.out == ""
    ensures call.Quiet() && Emit(call.OwnLines()) == []
  {
    OneLine("");
    assert "" + [NEWLINE] == [NEWLINE];
    assert call.OwnLines() == [""];
    assert !(call.Mark() <= "");
    assert MarkerAt([""], call.Mark()) == 1 + MarkerAt([""][1..], call.Mark());
  }

  lemma StrayHeard(call: Call, m: string)
    requires m != "" && call.Mark() == m && call.fate.Completes? && call.fate.err == ""
    requires call.errChunks == [m, [NEWLINE]] && call.late == 1
    ensures NewlineHeard(call, [])
  {
    var chunks := [m, [NEWLINE]];
    TwoChunks(m, [NEWLINE]);
    assert Pending(call, []) == chunks && chunks[..1] == [m] && chunks[..2] == chunks;
    var none: seq<string> := [];
    assert none[Min(call.stale, 0)..] == none;
    assert Leftover(call, []) == "";
  }

  /** Output that forges the marker with exit code 0: the reply believes it, and the real marker stays unread. */
  method ForgedMarker() returns (call: Call, shell: BashShell, r: Reply)
    ensures call.Valid() && !call.Quiet() && call.fate.Completes? && call.fate.code == 1
    ensures shell.Valid() && Streamed(call, call.Printed(), r, shell.unreadOut, shell.broken)
    ensures Told(call, [], r, shell.unreadErr)
    ensures r.exitCode == 0 && r.error.None? && r.sent == [] && shell.broken.None? && shell.unreadOut != ""
  {
    var m := Marker(0);
    call := Sample(m + Decimal(0), [m + [NEWLINE]]);
    shell := new BashShell();
    MarkerPlain(0);
    TwoChunks(m, [NEWLINE]);
    ForgedLines(call);
    NeverHangs(call, []);
    assert "" + call.Printed() == call.Printed();
    r := shell.ExecuteStream(call);
  }

  lemma ForgedLines(call: Call)
    requires call.fate == Completes(call.Mark() + Decimal(0), 1, "")
    ensures LinesOf(call.Printed()) == [call.Mark() + Decimal(0), call.Mark() + Decimal(1)] && !call.Quiet()
    ensures MarkerAt(LinesOf(call.Printed()), call.Mark()) == 0 && Emit(LinesOf(call.Printed())[..0]) == []
    ensures (call.Mark() + Decimal(0))[|call.Mark()|..] == Decimal(0) && Atoi(Decimal(0)) == Some(0)
  {
    PrintedLines(call);
    MarkerLine(call, 0);
    AtoiDecimal(0);
  }
}
