/** Strings cut at a separator character and joined again, and decimal numerals. */
module Text {

  datatype Option<+T> = None | Some(value: T)

  /** The pieces of `s` between occurrences of `sep`; always at least one piece. */
  function SplitOn(s: string, sep: char): (pieces: seq<string>)
    ensures |pieces| >= 1
  {
    if s == "" then [""]
    else
      var rest := SplitOn(s[1..], sep);
      if s[0] == sep then [""] + rest else [[s[0]] + rest[0]] + rest[1..]
  }

  function Join(xs: seq<string>, sep: char): string {
    if xs == [] then ""
    else if |xs| == 1 then xs[0]
    else xs[0] + [sep] + Join(xs[1..], sep)
  }

  function Concat(xs: seq<string>): string {
    if xs == [] then "" else xs[0] + Concat(xs[1..])
  }

  /** Named, so that proofs can regroup a concatenation where they mean to. */
  lemma Regroup<T>(a: seq<T>, b: seq<T>, c: seq<T>)
    ensures a + (b + c) == a + b + c
  {
  }

  lemma {:induction false} ConcatAppend(xs: seq<string>, ys: seq<string>)
    ensures Concat(xs + ys) == Concat(xs) + Concat(ys)
  {
    if xs == [] {
      assert xs + ys == ys;
    } else {
      assert (xs + ys)[1..] == xs[1..] + ys && (xs + ys)[0] == xs[0];
      ConcatAppend(xs[1..], ys);
      Regroup(xs[0], Concat(xs[1..]), Concat(ys));
    }
  }

  lemma {:induction false} PiecesHaveNoSeparator(s: string, sep: char)
    ensures forall x | x in SplitOn(s, sep) :: sep !in x
  {
    if s != "" {
      PiecesHaveNoSeparator(s[1..], sep);
      var rest := SplitOn(s[1..], sep);
      assert rest[0] in rest;
      assert forall x | x in rest[1..] :: x in rest;
    }
  }

  lemma {:induction false} SplitPiece(x: string, sep: char)
    requires sep !in x
    ensures SplitOn(x, sep) == [x]
  {
    if x != "" {
      SplitPiece(x[1..], sep);
      assert x == [x[0]] + x[1..];
    }
  }

  /** Puts `l` before `r`, making one piece of the last of `l` and the first of `r`. */
  function Glue(l: seq<string>, r: seq<string>): seq<string>
    requires l != [] && r != []
  {
    l[..|l| - 1] + [l[|l| - 1] + r[0]] + r[1..]
  }

  function Extend(c: char, t: seq<string>): seq<string>
    requires t != []
  {
    [[c] + t[0]] + t[1..]
  }

  lemma GluePrefix(x: string, t: seq<string>, r: seq<string>)
    requires t != [] && r != []
    ensures Glue([x] + t, r) == [x] + Glue(t, r)
  {
    var l := [x] + t;
    assert l[..|l| - 1] == [x] + t[..|t| - 1];
  }

  lemma GlueExtend(c: char, t: seq<string>, r: seq<string>)
    requires t != [] && r != []
    ensures Glue(Extend(c, t), r) == Extend(c, Glue(t, r))
  {
    if |t| == 1 {
      assert [c] + (t[0] + r[0]) == [c] + t[0] + r[0];
    } else {
      var l := Extend(c, t);
      assert l[..|l| - 1] == [[c] + t[0]] + t[1..|t| - 1];
      assert Glue(t, r)[1..] == t[1..|t| - 1] + [t[|t| - 1] + r[0]] + r[1..];
    }
  }

  lemma {:induction false} SplitConcat(a: string, b: string, sep: char)
    ensures SplitOn(a + b, sep) == Glue(SplitOn(a, sep), SplitOn(b, sep))
  {
    var r := SplitOn(b, sep);
    if a == "" {
      assert a + b == b;
      assert "" + r[0] == r[0];
    } else {
      assert (a + b)[1..] == a[1..] + b;
      SplitConcat(a[1..], b, sep);
      if a[0] == sep {
        GluePrefix("", SplitOn(a[1..], sep), r);
      } else {
        GlueExtend(a[0], SplitOn(a[1..], sep), r);
      }
    }
  }

  lemma GlueOne(x: string, r: seq<string>)
    ensures Glue([x], [""] + r) == [x] + r
  {
    assert x + "" == x && [x][..0] == [];
  }

  /** A piece without separators before one is the first piece. */
  lemma SplitFirst(x: string, y: string, sep: char)
    requires sep !in x
    ensures SplitOn(x + ([sep] + y), sep) == [x] + SplitOn(y, sep)
  {
    hide Glue;
    var j := [sep] + y;
    assert j[1..] == y;
    assert SplitOn(j, sep) == [""] + SplitOn(y, sep);
    SplitPiece(x, sep);
    SplitConcat(x, j, sep);
    GlueOne(x, SplitOn(y, sep));
  }

  /** Splitting where two texts were joined splits each. */
  lemma SplitBetween(x: string, y: string, sep: char)
    ensures SplitOn(x + [sep] + y, sep) == SplitOn(x, sep) + SplitOn(y, sep)
  {
    hide SplitOn;
    var j := [sep] + y;
    assert x + [sep] + y == x + j;
    SplitFirst("", y, sep);
    assert "" + j == j;
    SplitConcat(x, j, sep);
    GlueEmpty(SplitOn(x, sep), SplitOn(y, sep));
  }

  lemma GlueEmpty(l: seq<string>, r: seq<string>)
    requires l != []
    ensures Glue(l, [""] + r) == l + r
  {
    assert l[|l| - 1] + "" == l[|l| - 1] && l == l[..|l| - 1] + [l[|l| - 1]];
  }

  lemma {:induction false} SplitJoin(xs: seq<string>, sep: char)
    requires xs != []
    requires forall x | x in xs :: sep !in x
    ensures SplitOn(Join(xs, sep), sep) == xs
  {
    hide SplitOn;
    assert xs[0] in xs;
    if |xs| > 1 {
      var tail := xs[1..];
      assert forall x | x in tail :: x in xs;
      SplitJoin(tail, sep);
      assert Join(xs, sep) == xs[0] + ([sep] + Join(tail, sep));
      SplitFirst(xs[0], Join(tail, sep), sep);
      assert xs == [xs[0]] + tail;
    } else {
      SplitPiece(xs[0], sep);
      assert xs == [xs[0]];
    }
  }

  lemma {:induction false} JoinSplit(s: string, sep: char)
    ensures Join(SplitOn(s, sep), sep) == s
  {
    if s != "" {
      JoinSplit(s[1..], sep);
      var rest := SplitOn(s[1..], sep);
      if s[0] == sep {
        assert ([""] + rest)[1..] == rest;
        assert s == "" + [sep] + s[1..];
      } else if |rest| == 1 {
        assert s == [s[0]] + s[1..];
      } else {
        var pieces := [[s[0]] + rest[0]] + rest[1..];
        assert pieces[1..] == rest[1..];
        assert s == [s[0]] + s[1..];
      }
    }
  }

  /** Everything before and after the first separator; None when there is none. */
  function Cut(s: string, sep: char): Option<(string, string)> {
    if s == "" then None
    else if s[0] == sep then Some(("", s[1..]))
    else
      match Cut(s[1..], sep)
      case None => None
      case Some(parts) => Some(([s[0]] + parts.0, parts.1))
  }

  lemma {:induction false} CutFirst(a: string, b: string, sep: char)
    requires sep !in a
    ensures Cut(a + [sep] + b, sep) == Some((a, b))
  {
    if a != "" {
      assert (a + [sep] + b)[1..] == a[1..] + [sep] + b;
      CutFirst(a[1..], b, sep);
      assert a == [a[0]] + a[1..];
    }
  }

  lemma {:induction false} CutSound(s: string, sep: char)
    ensures Cut(s, sep).None? <==> sep !in s
    ensures Cut(s, sep).Some? ==> sep !in Cut(s, sep).value.0 && s == Cut(s, sep).value.0 + [sep] + Cut(s, sep).value.1
  {
    if s != "" {
      CutSound(s[1..], sep);
      assert s == [s[0]] + s[1..];
    }
  }

  /** What stands before the first separator is the first piece. */
  lemma {:induction false} FirstPiece(s: string, sep: char)
    ensures Cut(s, sep).None? <==> |SplitOn(s, sep)| == 1
    ensures SplitOn(s, sep)[0] == if Cut(s, sep).Some? then Cut(s, sep).value.0 else s
  {
    if s != "" {
      FirstPiece(s[1..], sep);
      assert s == [s[0]] + s[1..];
    }
  }

  // ---- decimal numerals ----

  function Digit(d: nat): (c: char)
    requires d < 10
    ensures '0' <= c <= '9'
  {
    '0' + d as char
  }

  function Decimal(n: nat): (s: string)
    ensures s != "" && forall c | c in s :: '0' <= c <= '9'
  {
    if n < 10 then [Digit(n)] else Decimal(n / 10) + [Digit(n % 10)]
  }

  /** The value of a digit string, None when some character is not a digit. */
  function ParseDigits(s: string): Option<nat> {
    if s == "" then Some(0)
    else
      var c := s[|s| - 1];
      match ParseDigits(s[..|s| - 1])
      case None => None
      case Some(high) => if '0' <= c <= '9' then Some(high * 10 + (c as int - '0' as int)) else None
  }

  /** A digit string is one exactly when all its characters are digits. */
  lemma {:induction false} DigitsOnly(s: string)
    ensures ParseDigits(s).Some? <==> forall c | c in s :: '0' <= c <= '9'
    decreases |s|
  {
    if s != "" {
      var front, last := s[..|s| - 1], s[|s| - 1];
      DigitsOnly(front);
      assert s == front + [last];
      assert last in s && forall c | c in front :: c in s;
      assert forall c | c in s :: c in front || c == last;
    }
  }

  lemma {:induction false} ParseDecimal(n: nat)
    ensures ParseDigits(Decimal(n)) == Some(n)
  {
    if n < 10 {
      assert Decimal(n)[..0] == "";
    } else {
      ParseDecimal(n / 10);
      var s := Decimal(n);
      assert s[..|s| - 1] == Decimal(n / 10);
    }
  }
}
