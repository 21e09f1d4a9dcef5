/** A stream cut into lines, and the lines a command's output is sent as. */
module LineScan {
  import opened Text

  const NEWLINE := '\n'
  const RETURN := '\r'

  /** A scanned line loses one trailing carriage return. */
  function DropReturn(s: string): (r: string)
    ensures r <= s && |s| - 1 <= |r|
  {
    if s != "" && s[|s| - 1] == RETURN then s[..|s| - 1] else s
  }

  /** All lines of a finished stream; the last one may lack its newline. */
  function LinesOf(text: string): (lines: seq<string>)
    ensures lines == [] <==> text == ""
    decreases |text|
  {
    if text == "" then []
    else
      CutSound(text, NEWLINE);
      match Cut(text, NEWLINE)
      case None => [DropReturn(text)]
      case Some(parts) => [DropReturn(parts.0)] + LinesOf(parts.1)
  }

  lemma FirstLine(x: string, rest: string)
    requires NEWLINE !in x
    ensures LinesOf(x + [NEWLINE] + rest) == [DropReturn(x)] + LinesOf(rest)
  {
    CutFirst(x, rest, NEWLINE);
  }

  /** Lines of a concatenation after a newline. */
  lemma {:induction false} LinesConcat(a: string, b: string)
    ensures LinesOf(a + [NEWLINE] + b) == LinesOf(a + [NEWLINE]) + LinesOf(b)
    decreases |a|
  {
    hide LinesOf, Cut;
    CutSound(a, NEWLINE);
    match Cut(a, NEWLINE) {
      case None =>
        FirstLine(a, b);
        OneLine(a);
      case Some(parts) =>
        var (x, y) := parts;
        LinesConcat(y, b);
        FirstLine(x, y + [NEWLINE] + b);
        FirstLine(x, y + [NEWLINE]);
        assert a + [NEWLINE] + b == x + [NEWLINE] + (y + [NEWLINE] + b);
        assert a + [NEWLINE] == x + [NEWLINE] + (y + [NEWLINE]);
        Regroup([DropReturn(x)], LinesOf(y + [NEWLINE]), LinesOf(b));
    }
  }

  lemma OneLine(x: string)
    requires NEWLINE !in x
    ensures LinesOf(x + [NEWLINE]) == [DropReturn(x)]
  {
    CutFirst(x, "", NEWLINE);
    assert x + [NEWLINE] + "" == x + [NEWLINE];
  }

  /** What is sent for the lines before a marker: all of them but a final empty one. */
  function Emit(lines: seq<string>): seq<string> {
    if lines != [] && lines[|lines| - 1] == "" then lines[..|lines| - 1] else lines
  }

  function Texts(lines: seq<string>): (r: seq<string>)
    ensures |r| == |lines| && forall i | 0 <= i < |lines| :: r[i] == lines[i] + [NEWLINE]
  {
    seq(|lines|, i requires 0 <= i < |lines| => lines[i] + [NEWLINE])
  }

  lemma TextsAppend(a: seq<string>, b: seq<string>)
    ensures Texts(a + b) == Texts(a) + Texts(b)
  {
  }

  predicate EndsLine(text: string) {
    text == "" || text[|text| - 1] == NEWLINE
  }

  /** Some carriage return stands right before a newline. */
  ghost predicate HasReturnNewline(text: string) {
    exists i :: 0 <= i < |text| - 1 && text[i] == RETURN && text[i + 1] == NEWLINE
  }

  lemma FirstLineReturn(x: string, y: string)
    requires NEWLINE !in x
    ensures HasReturnNewline(x + [NEWLINE] + y) <==> DropReturn(x) != x || HasReturnNewline(y)
  {
    var t := x + [NEWLINE] + y;
    if DropReturn(x) != x {
      assert t[|x| - 1] == RETURN && t[|x|] == NEWLINE;
    }
    if HasReturnNewline(y) {
      var i :| 0 <= i < |y| - 1 && y[i] == RETURN && y[i + 1] == NEWLINE;
      assert t[|x| + 1 + i] == RETURN && t[|x| + 1 + i + 1] == NEWLINE;
    }
    if HasReturnNewline(t) {
      var i :| 0 <= i < |t| - 1 && t[i] == RETURN && t[i + 1] == NEWLINE;
      assert forall k | 0 <= k < |x| :: t[k] == x[k] && t[k] != NEWLINE;
      if i > |x| {
        assert y[i - |x| - 1] == RETURN && y[i - |x| - 1 + 1] == NEWLINE;
      }
    }
  }

  /** Printing the scanned lines gives the text back exactly when no carriage return was dropped; otherwise less. */
  lemma {:induction false} PrintLines(text: string)
    requires EndsLine(text)
    ensures |Concat(Texts(LinesOf(text)))| <= |text|
    ensures HasReturnNewline(text) ==> |Concat(Texts(LinesOf(text)))| < |text|
    ensures !HasReturnNewline(text) ==> Concat(Texts(LinesOf(text))) == text
    decreases |text|
  {
    if text != "" {
      CutSound(text, NEWLINE);
      assert text[|text| - 1] in text;
      var (x, y) := Cut(text, NEWLINE).value;
      assert y != "" ==> y[|y| - 1] == text[|text| - 1];
      PrintLines(y);
      FirstLineReturn(x, y);
      assert Texts(LinesOf(text))[1..] == Texts(LinesOf(y));
      assert Concat(Texts(LinesOf(text))) == DropReturn(x) + [NEWLINE] + Concat(Texts(LinesOf(y)));
    }
  }

  /** The command's output, newline-terminated unless empty. */
  function Terminated(o: string): string {
    if EndsLine(o) then o else o + [NEWLINE]
  }

  /**
   What is sent for output `o` followed by the script's newline and marker is `o`, newline-terminated unless empty,
   exactly when no carriage return in it ends a line.
   */
  lemma SentText(o: string)
    ensures Concat(Texts(Emit(LinesOf(o + [NEWLINE])))) == Terminated(o) <==> !HasReturnNewline(o + [NEWLINE])
  {
    var t := o + [NEWLINE];
    PrintLines(t);
    if EndsLine(o) {
      PrintLines(o);
      LastLineEmpty(o);
      assert HasReturnNewline(t) <==> HasReturnNewline(o) by { ExtraNewline(o); }
    } else {
      LastLine(t);
    }
  }

  lemma LastLineEmpty(o: string)
    requires EndsLine(o)
    ensures LinesOf(o + [NEWLINE]) == LinesOf(o) + [""] && Emit(LinesOf(o + [NEWLINE])) == LinesOf(o)
  {
    OneLine("");
    assert "" + [NEWLINE] == [NEWLINE];
    if o == "" {
      assert o + [NEWLINE] == [NEWLINE];
    } else {
      var a := o[..|o| - 1];
      assert o == a + [NEWLINE];
      LinesConcat(a, [NEWLINE]);
    }
  }

  lemma ExtraNewline(o: string)
    requires EndsLine(o)
    ensures HasReturnNewline(o + [NEWLINE]) <==> HasReturnNewline(o)
  {
    var t := o + [NEWLINE];
    if HasReturnNewline(o) {
      var i :| 0 <= i < |o| - 1 && o[i] == RETURN && o[i + 1] == NEWLINE;
      assert t[i] == RETURN && t[i + 1] == NEWLINE;
    }
    if HasReturnNewline(t) {
      var i :| 0 <= i < |t| - 1 && t[i] == RETURN && t[i + 1] == NEWLINE;
      assert o[i] == RETURN && o[i + 1] == NEWLINE;
    }
  }

  /** A text whose last line is not just a newline: dropping a final empty scanned line loses something. */
  lemma {:induction false} LastLine(t: string)
    requires |t| >= 2 && t[|t| - 1] == NEWLINE && t[|t| - 2] != NEWLINE
    ensures var lines := LinesOf(t);
            if Emit(lines) == lines then true
            else HasReturnNewline(t) && |Concat(Texts(Emit(lines)))| < |t|
  {
    var lines := LinesOf(t);
    if Emit(lines) != lines {
      TextsAppend(Emit(lines), [""]);
      ConcatAppend(Texts(Emit(lines)), Texts([""]));
      assert lines == Emit(lines) + [""];
      PrintLines(t);
      if !HasReturnNewline(t) { NoEmptyTail(t); }
    }
  }

  lemma {:induction false} NoEmptyTail(t: string)
    requires |t| >= 2 && t[|t| - 1] == NEWLINE && t[|t| - 2] !in {NEWLINE, RETURN}
    ensures LinesOf(t) != [] && LinesOf(t)[|LinesOf(t)| - 1] != ""
    decreases |t|
  {
    CutSound(t, NEWLINE);
    assert t[|t| - 1] in t;
    var (x, y) := Cut(t, NEWLINE).value;
    if y != "" {
      assert y[|y| - 1] == t[|t| - 1];
      assert t[|t| - 2] == if |y| == 1 then NEWLINE else y[|y| - 2];
      NoEmptyTail(y);
    }
  }
}
