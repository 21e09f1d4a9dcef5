/** One command's block on the page: which text it shows, and how many rows it reserves for it. */
module OutputBlock {
  import opened Text
  import opened LineScan

  const ESCAPE := '\U{1b}'

  function CeilDiv(a: nat, b: nat): nat
    requires b > 0
  {
    (a + b - 1) / b
  }

  function Max(a: nat, b: nat): nat { if a < b then b else a }

  /** The counters of requiredRows. */
  datatype Count = Count(rows: nat, width: nat, escaped: bool)

  function Step(cols: nat, s: Count, c: char): Count
    requires cols > 0
  {
    if c == ESCAPE then s.(escaped := true)
    else if s.escaped then s.(escaped := c < '@' || c > '~' || c == '[')
    else if c == NEWLINE then Count(s.rows + Max(CeilDiv(s.width * 2, cols), 1), 0, false)
    else s.(width := s.width + 1)
  }

  function Steps(cols: nat, s: Count, data: string): Count
    requires cols > 0
    decreases |data|
  {
    if data == "" then s else Steps(cols, Step(cols, s, data[0]), data[1..])
  }

  function Total(cols: nat, s: Count): nat
    requires cols > 0
  {
    s.rows + CeilDiv(s.width * 2, cols)
  }

  const START := Count(1, 0, false)

  function RowsFor(data: string, cols: nat): nat
    requires cols > 0
  {
    Total(cols, Steps(cols, START, data))
  }

  lemma {:induction false} StepsAppend(cols: nat, s: Count, a: string, b: string)
    requires cols > 0
    ensures Steps(cols, s, a + b) == Steps(cols, Steps(cols, s, a), b)
    decreases |a|
  {
    if a == "" {
      assert a + b == b;
    } else {
      assert (a + b)[1..] == a[1..] + b;
      StepsAppend(cols, Step(cols, s, a[0]), a[1..], b);
    }
  }

  method RequiredRows(data: string, cols: nat) returns (n: nat)
    requires cols > 0
    ensures n == RowsFor(data, cols)
  {
    var rows: nat, width: nat, escaped := 1, 0, false;
    for i := 0 to |data|
      invariant Count(rows, width, escaped) == Steps(cols, START, data[..i])
    {
      var c := data[i];
      assert data[..i + 1] == data[..i] + [c];
      StepsAppend(cols, START, data[..i], [c]);
      assert [c][1..] == "";
      if c == ESCAPE {
        escaped := true;
        continue;
      }
      if escaped {
        escaped := c < '@' || c > '~' || c == '[';
        continue;
      }
      if c == NEWLINE {
        rows := rows + Max(CeilDiv(width * 2, cols), 1);
        width := 0;
        continue;
      }
      width := width + 1;
    }
    assert data[..|data|] == data;
    return rows + CeilDiv(width * 2, cols);
  }

  // ---- a terminal that wraps greedily ----

  /** Rows started so far and the columns used in the current one. */
  datatype Pen = Pen(rows: nat, x: nat)

  function Width(wide: char -> bool, c: char): nat { if wide(c) then 2 else 1 }

  function Put(cols: nat, wide: char -> bool, p: Pen, c: char): Pen {
    if c == NEWLINE then Pen(p.rows + 1, 0)
    else if p.x + Width(wide, c) > cols then Pen(p.rows + 1, Width(wide, c))
    else Pen(p.rows, p.x + Width(wide, c))
  }

  function PutAll(cols: nat, wide: char -> bool, p: Pen, text: string): Pen
    decreases |text|
  {
    if text == "" then p else PutAll(cols, wide, Put(cols, wide, p, text[0]), text[1..])
  }

  /** Every character fits a row, and wide ones fill it without a gap. */
  ghost predicate Fits(cols: nat, wide: char -> bool, text: string) {
    cols > 0 && (cols % 2 == 0 || forall c | c in text :: !wide(c))
  }

  /**
   Where a line stands that was entered in row `row` at column `entry`: `full` of its rows began at column 0 and are
   full; a row already begun by the text before is extra.
   */
  ghost predicate InLine(cols: nat, s: Count, p: Pen, row: nat, entry: nat, full: nat) {
    && p.x <= cols && !s.escaped
    && if p.rows == row && entry > 0 then full == 0
       else
         && p.rows == row + full + (if entry > 0 then 1 else 0)
         && p.x <= 2 * s.width - cols * full
         && (p.x == 0 ==> s.width == 0 && full == 0 && entry == 0)
  }

  /** What was reserved so far covers the line's first row; `spare` rows are left over. */
  ghost predicate Reserved(s: Count, row: nat, entry: nat, spare: nat) {
    if entry > 0 then spare == 0 && row + 1 <= s.rows else row + spare <= s.rows
  }

  lemma FullRowsCounted(cols: nat, width: nat, full: nat, x: nat)
    requires cols > 0 && x <= 2 * width - cols * full && x > 0
    ensures full + 1 <= CeilDiv(width * 2, cols)
  {
    var q := CeilDiv(width * 2, cols);
    assert cols * full < cols * q;
    assert q <= full ==> cols * q <= cols * full;
  }

  /** A full row holds at least half as many characters as it has columns. */
  lemma RowFilled(cols: nat, width: nat, full: nat, x: nat, w: nat)
    requires 1 <= w <= 2 && x <= 2 * width - cols * full && x + w > cols
    requires cols % 2 == 0 || w == 1
    ensures w <= 2 * (width + 1) - cols * (full + 1)
  {
    assert cols * (full + 1) == cols * full + cols;
    if w == 2 {
      var half := cols / 2;
      assert cols * full == 2 * (half * full);
    }
  }

  lemma PutOne(cols: nat, wide: char -> bool, s: Count, p: Pen, c: char, row: nat, entry: nat, full: nat)
    returns (full': nat)
    requires InLine(cols, s, p, row, entry, full) && Fits(cols, wide, [c]) && c != ESCAPE && c != NEWLINE
    ensures InLine(cols, Step(cols, s, c), Put(cols, wide, p, c), row, entry, full')
  {
    var w := Width(wide, c);
    assert c in [c];
    full' := full;
    if p.x + w > cols && !(p.rows == row && entry > 0) {
      RowFilled(cols, s.width, full, p.x, w);
      full' := full + 1;
    }
  }

  lemma NewLine(cols: nat, s: Count, p: Pen, row: nat, entry: nat, full: nat, spare: nat)
    requires cols > 0 && InLine(cols, s, p, row, entry, full) && Reserved(s, row, entry, spare)
    ensures Reserved(Step(cols, s, NEWLINE), p.rows + 1, 0, spare)
  {
    if p.x > 0 && !(p.rows == row && entry > 0) { FullRowsCounted(cols, s.width, full, p.x); }
  }

  lemma {:induction false} Covers(cols: nat, wide: char -> bool, s: Count, p: Pen, text: string,
                                  row: nat, entry: nat, full: nat, spare: nat)
    requires Fits(cols, wide, text) && ESCAPE !in text
    requires InLine(cols, s, p, row, entry, full) && Reserved(s, row, entry, spare)
    ensures PutAll(cols, wide, p, text).rows + spare <= Total(cols, Steps(cols, s, text))
    decreases |text|
  {
    if text == "" {
      if p.x > 0 && !(p.rows == row && entry > 0) { FullRowsCounted(cols, s.width, full, p.x); }
    } else {
      var c := text[0];
      assert c in text && forall d | d in text[1..] :: d in text;
      var s', p' := Step(cols, s, c), Put(cols, wide, p, c);
      if c == NEWLINE {
        NewLine(cols, s, p, row, entry, full, spare);
        Covers(cols, wide, s', p', text[1..], p'.rows, 0, 0, spare);
      } else {
        var full' := PutOne(cols, wide, s, p, c, row, entry, full);
        Covers(cols, wide, s', p', text[1..], row, entry, full', spare);
      }
    }
  }

  /**
   From whatever column the text starts, the rows reserved are at least the rows it newly takes; from column 0 they
   also cover the row it starts in.
   */
  lemma Enough(text: string, cols: nat, wide: char -> bool, x: nat)
    requires Fits(cols, wide, text) && ESCAPE !in text && x <= cols
    ensures PutAll(cols, wide, Pen(0, x), text).rows + (if x == 0 then 1 else 0) <= RowsFor(text, cols)
  {
    Covers(cols, wide, START, Pen(0, x), text, 0, x, 0, if x == 0 then 1 else 0);
  }

  lemma CeilAtMost(a: nat, b: nat, k: nat)
    requires b > 0 && a <= b * k
    ensures CeilDiv(a, b) <= k
  {
    var n := a + b - 1;
    var q := n / b;
    assert n == b * q + n % b;
    assert b * (q - k) == b * q - b * k < b;
    SmallMultiple(b, q - k);
  }

  /** Wide characters fill rows of an even width exactly. */
  ghost predicate InWideLine(cols: nat, s: Count, p: Pen, full: nat) {
    && p.x <= cols && !s.escaped && p.x == 2 * s.width - cols * full && (p.x == 0 ==> s.width == 0 && full == 0)
    && s.rows == p.rows - full + 1
  }

  lemma WideCeil(cols: nat, s: Count, p: Pen, full: nat)
    requires cols > 0 && InWideLine(cols, s, p, full)
    ensures CeilDiv(s.width * 2, cols) == if s.width == 0 then 0 else full + 1
  {
    if s.width > 0 {
      FullRowsCounted(cols, s.width, full, p.x);
      assert cols * (full + 1) == cols * full + cols;
      CeilAtMost(s.width * 2, cols, full + 1);
    } else {
      CeilAtMost(0, cols, 0);
    }
  }

  lemma {:induction false} WideTotal(cols: nat, wide: char -> bool, s: Count, p: Pen, text: string, full: nat)
    requires cols > 0 && cols % 2 == 0 && InWideLine(cols, s, p, full)
    requires forall c | c in text :: c == NEWLINE || (wide(c) && c != ESCAPE)
    ensures Total(cols, Steps(cols, s, text)) ==
              PutAll(cols, wide, p, text).rows + if PutAll(cols, wide, p, text).x == 0 then 1 else 2
    decreases |text|
  {
    WideCeil(cols, s, p, full);
    if text != "" {
      var c := text[0];
      assert c in text && forall d | d in text[1..] :: d in text;
      var s', p' := Step(cols, s, c), Put(cols, wide, p, c);
      if c == NEWLINE {
        WideTotal(cols, wide, s', p', text[1..], 0);
      } else {
        var full' := WideOne(cols, wide, s, p, c, full);
        WideTotal(cols, wide, s', p', text[1..], full');
      }
    }
  }

  lemma WideOne(cols: nat, wide: char -> bool, s: Count, p: Pen, c: char, full: nat) returns (full': nat)
    requires cols > 0 && cols % 2 == 0 && InWideLine(cols, s, p, full) && wide(c) && c != ESCAPE && c != NEWLINE
    ensures InWideLine(cols, Step(cols, s, c), Put(cols, wide, p, c), full')
  {
    full' := full;
    if p.x + 2 > cols {
      WideFull(cols, s.width, full, p.x);
      full' := full + 1;
    }
  }

  lemma WideFull(cols: nat, width: nat, full: nat, x: nat)
    requires cols % 2 == 0 && x <= cols < x + 2 && x == 2 * width - cols * full
    ensures 2 == 2 * (width + 1) - cols * (full + 1)
  {
    assert cols * (full + 1) == cols * full + cols;
    var half := cols / 2;
    assert cols * full == 2 * (half * full);
  }

  /** For full-width text at an even width the count is the rows used and one more, two unless a newline ends it. */
  lemma WideExactly(text: string, cols: nat, wide: char -> bool)
    requires cols > 0 && cols % 2 == 0 && forall c | c in text :: c == NEWLINE || (wide(c) && c != ESCAPE)
    ensures var used := PutAll(cols, wide, Pen(0, 0), text);
            RowsFor(text, cols) == used.rows + if used.x == 0 then 1 else 2
  {
    WideTotal(cols, wide, START, Pen(0, 0), text, 0);
  }

  // ---- odd widths ----

  function Repeat(c: char, n: nat): string {
    if n == 0 then "" else [c] + Repeat(c, n - 1)
  }

  lemma {:induction false} PutAppend(cols: nat, wide: char -> bool, p: Pen, c: char, a: nat, b: nat)
    ensures PutAll(cols, wide, p, Repeat(c, a + b))
        == PutAll(cols, wide, PutAll(cols, wide, p, Repeat(c, a)), Repeat(c, b))
    decreases a
  {
    if a > 0 {
      assert Repeat(c, a + b)[1..] == Repeat(c, a - 1 + b) && Repeat(c, a)[1..] == Repeat(c, a - 1);
      PutAppend(cols, wide, Put(cols, wide, p, c), c, a - 1, b);
    }
  }

  lemma {:induction false} FillRow(cols: nat, wide: char -> bool, c: char, row: nat, half: nat, n: nat)
    requires wide(c) && c != NEWLINE && cols == 2 * half + 1 && n <= half
    ensures PutAll(cols, wide, Pen(row, 2 * (half - n)), Repeat(c, n)) == Pen(row, 2 * half)
    decreases n
  {
    if n > 0 {
      assert Repeat(c, n)[1..] == Repeat(c, n - 1);
      FillRow(cols, wide, c, row, half, n - 1);
    }
  }

  /** Wide characters leave one column of every odd row unused. */
  lemma {:induction false} WideRows(cols: nat, wide: char -> bool, c: char, row: nat, half: nat, m: nat)
    requires wide(c) && c != NEWLINE && cols == 2 * half + 1 && half > 0
    ensures PutAll(cols, wide, Pen(row, 2 * half), Repeat(c, half * m)) == Pen(row + m, 2 * half)
    decreases m
  {
    if m == 0 {
      assert half * m == 0;
    } else {
      assert half * m == half + half * (m - 1);
      var start := Pen(row, 2 * half);
      PutAppend(cols, wide, start, c, half, half * (m - 1));
      assert Repeat(c, half)[1..] == Repeat(c, half - 1);
      FillRow(cols, wide, c, row + 1, half, half - 1);
      WideRows(cols, wide, c, row + 1, half, m - 1);
    }
  }

  lemma {:induction false} RepeatSteps(cols: nat, s: Count, c: char, n: nat)
    requires cols > 0 && c != NEWLINE && c != ESCAPE && !s.escaped
    ensures Steps(cols, s, Repeat(c, n)) == s.(width := s.width + n)
    decreases n
  {
    if n > 0 {
      assert Repeat(c, n)[1..] == Repeat(c, n - 1);
      RepeatSteps(cols, Step(cols, s, c), c, n - 1);
    }
  }

  lemma CeilExact(b: nat, k: nat)
    requires b > 0
    ensures CeilDiv(b * k, b) == k
  {
    var n := b * k + b - 1;
    var q, r := n / b, n % b;
    assert n == b * q + r;
    assert b * (k - q) == r - (b - 1);
    SmallMultiple(b, k - q);
  }

  lemma SmallMultiple(b: int, d: int)
    requires 0 < b
    ensures d >= 1 ==> b * d >= b
    ensures d <= -1 ==> b * d <= -b
  {
    if d >= 1 {
      assert b * d == b + b * (d - 1) && b * (d - 1) >= 0;
    } else if d <= -1 {
      assert b * d == -(b * -d) && b * -d == b + b * (-d - 1) && b * (-d - 1) >= 0;
    }
  }

  lemma OddRunsOver(cols: nat, wide: char -> bool, c: char) returns (text: string)
    requires cols % 2 == 1 && cols > 1 && wide(c) && c != NEWLINE && c != ESCAPE
    ensures ESCAPE !in text && PutAll(cols, wide, Pen(0, 0), text).rows > RowsFor(text, cols)
  {
    var half := cols / 2;
    var m := 3 * cols;
    text := Repeat(c, half * m);
    assert half * m == half + half * (m - 1);
    PutAppend(cols, wide, Pen(0, 0), c, half, half * (m - 1));
    FillRow(cols, wide, c, 0, half, half);
    WideRows(cols, wide, c, 0, half, m - 1);
    RepeatSteps(cols, START, c, half * m);
    assert half * m * 2 == cols * (6 * half);
    CeilExact(cols, 6 * half);
    RepeatOnly(c, half * m);
  }

  lemma {:induction false} RepeatOnly(c: char, n: nat)
    ensures forall d | d in Repeat(c, n) :: d == c
  {
    if n > 0 { RepeatOnly(c, n - 1); }
  }

  /** With wide characters about, the bound holds for every text at every starting column exactly at even widths. */
  lemma EnoughExactly(cols: nat, wide: char -> bool, c: char)
    requires cols > 1 && wide(c) && c != NEWLINE && c != ESCAPE
    ensures (forall text, x: nat | ESCAPE !in text && x <= cols ::
               PutAll(cols, wide, Pen(0, x), text).rows <= RowsFor(text, cols)) <==> cols % 2 == 0
  {
    if cols % 2 == 0 {
      forall text, x: nat | ESCAPE !in text && x <= cols
        ensures PutAll(cols, wide, Pen(0, x), text).rows <= RowsFor(text, cols)
      {
        Enough(text, cols, wide, x);
      }
    } else {
      var text := OddRunsOver(cols, wide, c);
    }
  }

  // ---- control sequences ----

  /** ESC [, parameter bytes, intermediate bytes, a final byte: section 5.4 of ECMA-48. */
  ghost predicate IsControl(s: string) {
    && |s| >= 3 && s[0] == ESCAPE && s[1] == '[' && '@' <= s[|s| - 1] <= '~'
    && exists k :: 2 <= k < |s| && ParametersUpTo(s, k)
  }

  ghost predicate ParametersUpTo(s: string, k: nat)
    requires 2 <= k < |s|
  {
    (forall i | 2 <= i < k :: '0' <= s[i] <= '?') && (forall i | k <= i < |s| - 1 :: ' ' <= s[i] <= '/')
  }

  lemma {:induction false} Swallowed(cols: nat, s: Count, middle: string)
    requires cols > 0 && s.escaped && forall c | c in middle :: ' ' <= c <= '?'
    ensures Steps(cols, s, middle) == s
    decreases |middle|
  {
    if middle != "" {
      assert middle[0] in middle && forall c | c in middle[1..] :: c in middle;
      Swallowed(cols, s, middle[1..]);
    }
  }

  lemma ControlSteps(cols: nat, s: Count, control: string)
    requires cols > 0 && !s.escaped && IsControl(control)
    ensures Steps(cols, s, control) == s.(escaped := control[|control| - 1] == '[')
  {
    var open, middle, final := control[..2], control[2..|control| - 1], control[|control| - 1];
    assert control == open + (middle + [final]);
    StepsAppend(cols, s, open, middle + [final]);
    assert open[0] == ESCAPE && open[1..] == ['['] && open[1..][1..] == "";
    assert Step(cols, Step(cols, s, ESCAPE), '[') == s.(escaped := true);
    assert Steps(cols, Step(cols, s, ESCAPE), ['[']) == Steps(cols, s.(escaped := true), "");
    Swallowed(cols, s.(escaped := true), middle);
    StepsAppend(cols, s.(escaped := true), middle, [final]);
    assert [final][1..] == "";
  }

  /** Visible characters with complete control sequences between them. */
  datatype Item = Plain(c: char) | Control(text: string)

  ghost predicate Styled(items: seq<Item>) {
    forall it | it in items ::
      match it
      case Plain(c) => c != ESCAPE
      case Control(t) => IsControl(t) && t[|t| - 1] != '['
  }

  function Render(items: seq<Item>): string {
    if items == [] then ""
    else (match items[0] case Plain(c) => [c] case Control(t) => t) + Render(items[1..])
  }

  function Visible(items: seq<Item>): string {
    if items == [] then ""
    else (match items[0] case Plain(c) => [c] case Control(_) => "") + Visible(items[1..])
  }

  lemma PlainStep(cols: nat, s: Count, c: char)
    requires cols > 0 && !s.escaped && c != ESCAPE
    ensures !Step(cols, s, c).escaped
  {
  }

  lemma {:induction false} StyleSteps(cols: nat, s: Count, items: seq<Item>)
    requires cols > 0 && !s.escaped && Styled(items)
    ensures Steps(cols, s, Render(items)) == Steps(cols, s, Visible(items)) && ESCAPE !in Visible(items)
    decreases |items|
  {
    hide Step, IsControl;
    if items != [] {
      var rest := items[1..];
      assert items[0] in items && forall it | it in rest :: it in items;
      match items[0] {
        case Plain(c) =>
          PlainStep(cols, s, c);
          assert ([c] + Render(rest))[1..] == Render(rest) && ([c] + Visible(rest))[1..] == Visible(rest);
          StyleSteps(cols, Step(cols, s, c), rest);
        case Control(t) =>
          StepsAppend(cols, s, t, Render(rest));
          ControlSteps(cols, s, t);
          assert "" + Visible(rest) == Visible(rest);
          StyleSteps(cols, s, rest);
      }
    }
  }

  /** Control sequences between the characters change nothing, and the rows still suffice for what is visible. */
  lemma EnoughStyled(items: seq<Item>, cols: nat, wide: char -> bool, x: nat)
    requires Styled(items) && Fits(cols, wide, Visible(items)) && x <= cols
    ensures RowsFor(Render(items), cols) == RowsFor(Visible(items), cols)
    ensures PutAll(cols, wide, Pen(0, x), Visible(items)).rows + (if x == 0 then 1 else 0)
        <= RowsFor(Render(items), cols)
  {
    StyleSteps(cols, START, items);
    Enough(Visible(items), cols, wide, x);
  }

  /** A control sequence is transparent everywhere exactly when its final byte is not '['. */
  lemma TransparentExactly(cols: nat, control: string)
    requires cols > 0 && IsControl(control)
    ensures (forall before, after | ESCAPE !in before ::
                 RowsFor(before + control + after, cols) == RowsFor(before + after, cols))
            <==> control[|control| - 1] != '['
  {
    if control[|control| - 1] != '[' {
      forall before, after | ESCAPE !in before
          ensures RowsFor(before + control + after, cols) == RowsFor(before + after, cols) {
        StepsAppend(cols, START, before + control, after);
        StepsAppend(cols, START, before, control);
        StepsAppend(cols, START, before, after);
        NotEscaped(cols, START, before);
        ControlSteps(cols, Steps(cols, START, before), control);
      }
    } else {
      var after := [NEWLINE];
      ControlSteps(cols, START, control);
      StepsAppend(cols, START, control, after);
      assert after[1..] == "" && Steps(cols, START, control + after) == START.(escaped := true);
      assert Steps(cols, START, after).rows == 2;
      assert "" + control + after == control + after && "" + after == after;
      assert RowsFor("" + control + after, cols) != RowsFor("" + after, cols);
    }
  }

  lemma {:induction false} NotEscaped(cols: nat, s: Count, text: string)
    requires cols > 0 && !s.escaped && ESCAPE !in text
    ensures !Steps(cols, s, text).escaped
    decreases |text|
  {
    if text != "" { NotEscaped(cols, Step(cols, s, text[0]), text[1..]); }
  }

  // ---- the block ----

  function StripNewlines(s: string): (r: string)
    ensures r <= s && (r != "" ==> r[|r| - 1] != NEWLINE)
    ensures forall i | |r| <= i < |s| :: s[i] == NEWLINE
  {
    if s != "" && s[|s| - 1] == NEWLINE then StripNewlines(s[..|s| - 1]) else s
  }

  lemma {:induction false} StripUnique(body: string, tail: string)
    requires body == "" || body[|body| - 1] != NEWLINE
    requires forall c | c in tail :: c == NEWLINE
    ensures StripNewlines(body + tail) == body
    decreases |tail|
  {
    if tail == "" {
      assert body + tail == body;
    } else {
      var front := tail[..|tail| - 1];
      assert (body + tail)[..|body + tail| - 1] == body + front;
      assert tail[|tail| - 1] in tail && forall c | c in front :: c in tail;
      StripUnique(body, front);
    }
  }

  lemma {:induction false} PutShift(cols: nat, wide: char -> bool, p: Pen, text: string, shift: nat)
    requires shift <= p.rows
    ensures PutAll(cols, wide, p, text).rows == shift + PutAll(cols, wide, Pen(p.rows - shift, p.x), text).rows
    decreases |text|
  {
    if text != "" { PutShift(cols, wide, Put(cols, wide, p, text[0]), text[1..], shift); }
  }

  /** A terminal that holds its text before a push still holds it all after the terminal has written the data. */
  lemma NothingScrollsOff(items: seq<Item>, cols: nat, wide: char -> bool, cursor: Pen, rows: nat)
    requires Styled(items) && Fits(cols, wide, Visible(items)) && cursor.x <= cols && cursor.rows + 1 <= rows
    ensures PutAll(cols, wide, cursor, Visible(items)).rows + 1 <= rows + RowsFor(Render(items), cols)
  {
    EnoughStyled(items, cols, wide, cursor.x);
    PutShift(cols, wide, cursor, Visible(items), cursor.rows);
  }

  lemma {:induction false} PutInside(cols: nat, wide: char -> bool, p: Pen, text: string)
    requires cols >= 2 && p.x <= cols
    ensures PutAll(cols, wide, p, text).x <= cols
    decreases |text|
  {
    if text != "" { PutInside(cols, wide, Put(cols, wide, p, text[0]), text[1..]); }
  }

  // ---- what a terminal makes of a text ----

  datatype Mode = Showing | Opening | Sequence

  /** The characters a terminal shows; control sequences are read and not shown. */
  function Shows(mode: Mode, text: string): string
    decreases |text|
  {
    if text == "" then ""
    else
      var c := text[0];
      match mode
      case Showing => if c == ESCAPE then Shows(Opening, text[1..]) else [c] + Shows(Showing, text[1..])
      case Opening => Shows(if c == '[' then Sequence else Showing, text[1..])
      case Sequence => Shows(if '@' <= c <= '~' then Showing else Sequence, text[1..])
  }

  lemma {:induction false} ReadThrough(middle: string, final: char, rest: string)
    requires (forall c | c in middle :: ' ' <= c <= '?') && '@' <= final <= '~'
    ensures Shows(Sequence, middle + ([final] + rest)) == Shows(Showing, rest)
    decreases |middle|
  {
    if middle == "" {
      assert middle + ([final] + rest) == [final] + rest && ([final] + rest)[1..] == rest;
    } else {
      assert middle[0] in middle && forall c | c in middle[1..] :: c in middle;
      assert (middle + ([final] + rest))[1..] == middle[1..] + ([final] + rest);
      ReadThrough(middle[1..], final, rest);
    }
  }

  lemma ShowsControl(control: string, rest: string)
    requires IsControl(control)
    ensures Shows(Showing, control + rest) == Shows(Showing, rest)
  {
    var middle, final := control[2..|control| - 1], control[|control| - 1];
    var text := control + rest;
    assert text[1..][1..] == middle + ([final] + rest);
    ReadThrough(middle, final, rest);
  }

  lemma {:induction false} ShowsVisible(items: seq<Item>)
    requires Styled(items)
    ensures Shows(Showing, Render(items)) == Visible(items)
    decreases |items|
  {
    hide IsControl;
    if items != [] {
      var rest := items[1..];
      assert items[0] in items && forall it | it in rest :: it in items;
      ShowsVisible(rest);
      match items[0] {
        case Plain(c) => assert ([c] + Render(rest))[1..] == Render(rest);
        case Control(t) => ShowsControl(t, Render(rest));
      }
    }
  }

  // ---- the block's terminal, which draws later than it is written to ----

  /**
   A terminal at least two columns wide. `shown` is what was drawn since the last reset; `queue` holds the texts
   written and not drawn yet.
   */
  datatype Screen = Screen(cols: nat, rows: nat, cursor: Pen, shown: string, queue: seq<string>)

  datatype Act =
    /** rows are reserved at once, the text is queued */
    | Push(data: string)
    /** the empty text that ends a block, without rows of its own */
    | Mark
    /** the terminal draws the first text queued, and its callback fits the rows to the cursor */
    | Draw
    /** an empty terminal of another width; what was queued stays queued */
    | Reset(width: nat)

  predicate Possible(s: Screen, act: Act) {
    && s.cols >= 2
    && (act.Draw? ==> s.queue != []) && (act.Reset? ==> act.width >= 2)
  }

  /** The cursor once the first text queued is drawn. */
  function Drawn(wide: char -> bool, s: Screen): Pen
    requires s.queue != []
  {
    PutAll(s.cols, wide, s.cursor, Shows(Showing, s.queue[0]))
  }

  function Next(wide: char -> bool, s: Screen, act: Act): Screen
    requires Possible(s, act)
  {
    match act
    case Push(data) => s.(rows := s.rows + RowsFor(data, s.cols), queue := s.queue + [data])
    case Mark => s.(queue := s.queue + [""])
    case Draw =>
      Screen(s.cols, Max(Drawn(wide, s).rows + 1, 1), Drawn(wide, s), s.shown + s.queue[0], s.queue[1..])
    case Reset(width) => Screen(width, 1, Pen(0, 0), "", s.queue)
  }

  /** Drawing the next text stays within the rows, so nothing scrolls off. */
  predicate Stays(wide: char -> bool, s: Screen)
    requires s.queue != []
  {
    Drawn(wide, s).rows + 1 <= s.rows
  }

  /** The rows are those in use: how an empty terminal starts, and how a fit leaves it. */
  predicate Fitted(s: Screen) {
    s.cols >= 2 && s.cursor.x <= s.cols && s.rows == s.cursor.rows + 1
  }

  /** A text whose rows requiredRows does not underestimate. */
  ghost predicate Counted(cols: nat, wide: char -> bool, data: string) {
    exists items :: data == Render(items) && Styled(items) && Fits(cols, wide, Visible(items))
  }

  lemma CountedCovers(cols: nat, wide: char -> bool, data: string, p: Pen)
    requires Counted(cols, wide, data) && p.x <= cols
    ensures PutAll(cols, wide, p, Shows(Showing, data)).rows <= p.rows + RowsFor(data, cols)
  {
    hide Styled, Fits, PutAll, RowsFor;
    var items :| data == Render(items) && Styled(items) && Fits(cols, wide, Visible(items));
    ShowsVisible(items);
    NothingScrollsOff(items, cols, wide, p, p.rows + 1);
  }

  // ---- whole runs ----

  ghost predicate IsRun(wide: char -> bool, screens: seq<Screen>, acts: seq<Act>) {
    && |screens| == |acts| + 1 && Fitted(screens[0]) && screens[0].queue == []
    && forall i | 0 <= i < |acts| ::
         && Possible(screens[i], acts[i]) && screens[i + 1] == Next(wide, screens[i], acts[i])
         && (acts[i].Push? ==> Counted(screens[i].cols, wide, acts[i].data))
  }

  /** The last moment up to `i` at which the rows were fitted: by a draw's callback, by a reset, or at the start. */
  function LastFit(acts: seq<Act>, i: nat): (f: nat)
    requires i <= |acts|
    ensures f <= i && (f > 0 ==> acts[f - 1].Draw? || acts[f - 1].Reset?)
    ensures forall k | f <= k < i :: acts[k].Push? || acts[k].Mark?
  {
    if i == 0 || acts[i - 1].Draw? || acts[i - 1].Reset? then i else LastFit(acts, i - 1)
  }

  /** The rows that some acts reserve at a width. */
  function Room(acts: seq<Act>, cols: nat): nat
    requires cols > 0
  {
    if acts == [] then 0
    else
      var last := acts[|acts| - 1];
      Room(acts[..|acts| - 1], cols) + if last.Push? then RowsFor(last.data, cols) else 0
  }

  lemma {:induction false} FittedThen(wide: char -> bool, screens: seq<Screen>, acts: seq<Act>, i: nat)
    requires IsRun(wide, screens, acts) && i <= |acts|
    ensures screens[i].cols >= 2 && screens[i].cursor.x <= screens[i].cols
    ensures i == 0 || acts[i - 1].Draw? || acts[i - 1].Reset? ==> Fitted(screens[i])
    decreases i
  {
    hide PutAll, RowsFor;
    if i > 0 {
      FittedThen(wide, screens, acts, i - 1);
      var s := screens[i - 1];
      assert screens[i] == Next(wide, s, acts[i - 1]);
      if acts[i - 1].Draw? { PutInside(s.cols, wide, s.cursor, Shows(Showing, s.queue[0])); }
    }
  }

  /** Between fits the cursor stands still, rows are only reserved and texts only queued. */
  lemma {:induction false} SinceFit(wide: char -> bool, screens: seq<Screen>, acts: seq<Act>, f: nat, i: nat)
    requires IsRun(wide, screens, acts) && f <= i <= |acts| && screens[f].cols > 0
    requires forall k | f <= k < i :: acts[k].Push? || acts[k].Mark?
    ensures screens[i].cols == screens[f].cols && screens[i].cursor == screens[f].cursor
    ensures screens[i].rows == screens[f].rows + Room(acts[f..i], screens[f].cols)
    ensures screens[f].queue <= screens[i].queue
    ensures screens[f].queue == [] && screens[i].queue != [] ==>
              || screens[i].queue[0] == ""
              || (Counted(screens[f].cols, wide, screens[i].queue[0])
                  && RowsFor(screens[i].queue[0], screens[f].cols) <= Room(acts[f..i], screens[f].cols))
    decreases i
  {
    hide RowsFor, Counted, PutAll;
    if f == i {
      assert acts[f..i] == [];
    } else {
      SinceFit(wide, screens, acts, f, i - 1);
      var s, act := screens[i - 1], acts[i - 1];
      assert screens[i] == Next(wide, s, act) && Possible(s, act);
      assert acts[f..i][..i - f - 1] == acts[f..i - 1];
      assert act.Push? ==> Counted(s.cols, wide, act.data);
    }
  }

  /** The rows that a text starts when it is drawn from a column on. */
  function NewRows(cols: nat, wide: char -> bool, x: nat, text: string): nat {
    PutAll(cols, wide, Pen(0, x), Shows(Showing, text)).rows
  }

  /**
   The text that the fit before draw `i` found first in the queue starts, from the column of the cursor then, no more
   rows than are reserved after that fit and before the draw.
   */
  ghost predicate WithinRoom(wide: char -> bool, screens: seq<Screen>, acts: seq<Act>, i: nat)
    requires i < |acts| && |screens| == |acts| + 1
    requires screens[LastFit(acts, i)].cols > 0 && screens[LastFit(acts, i)].queue != []
  {
    var f := LastFit(acts, i);
    var s := screens[f];
    NewRows(s.cols, wide, s.cursor.x, s.queue[0]) <= Room(acts[f..i], s.cols)
  }

  lemma DrawStays(wide: char -> bool, screens: seq<Screen>, acts: seq<Act>, i: nat)
    requires IsRun(wide, screens, acts) && i < |acts| && acts[i].Draw?
    ensures screens[i].queue != [] && screens[LastFit(acts, i)].cols > 0
    ensures if screens[LastFit(acts, i)].queue == [] then Stays(wide, screens[i])
            else Stays(wide, screens[i]) <==> WithinRoom(wide, screens, acts, i)
  {
    hide RowsFor, PutAll, Counted, Room, Shows, Next, LastFit;
    var f := LastFit(acts, i);
    assert Possible(screens[i], acts[i]);
    FittedThen(wide, screens, acts, f);
    SinceFit(wide, screens, acts, f, i);
    hide IsRun;
    DrawAfterFit(wide, screens[f], screens[i], Room(acts[f..i], screens[f].cols));
  }

  /** A draw behind a fit, with the rows reserved in between. */
  lemma DrawAfterFit(wide: char -> bool, fitted: Screen, s: Screen, room: nat)
    requires Fitted(fitted) && s.cols == fitted.cols && s.cursor == fitted.cursor && s.rows == fitted.rows + room
    requires s.queue != [] && fitted.queue <= s.queue
    requires fitted.queue == [] ==>
               || s.queue[0] == ""
               || (Counted(s.cols, wide, s.queue[0]) && RowsFor(s.queue[0], s.cols) <= room)
    ensures Stays(wide, s) <==> NewRows(s.cols, wide, s.cursor.x, s.queue[0]) <= room
    ensures fitted.queue == [] ==> Stays(wide, s)
  {
    hide RowsFor, PutAll, Counted, Shows;
    PutShift(s.cols, wide, s.cursor, Shows(Showing, s.queue[0]), s.cursor.rows);
    if fitted.queue == [] {
      if s.queue[0] == "" {
        DrawNothing(s.cols, wide, s.cursor);
      } else {
        CountedCovers(s.cols, wide, s.queue[0], s.cursor);
      }
    }
  }

  lemma DrawNothing(cols: nat, wide: char -> bool, p: Pen)
    ensures PutAll(cols, wide, p, Shows(Showing, "")) == p
  {
  }

  /**
   In any run of pushes, draws and changes of width, nothing ever scrolls off exactly when every text that a fit found
   first in the queue, and that is drawn next, starts no more rows from the cursor than are reserved in between. A text
   that no fit found queued always stays.
   */
  lemma NeverScrollsExactly(wide: char -> bool, screens: seq<Screen>, acts: seq<Act>)
    requires IsRun(wide, screens, acts)
    ensures (forall i | 0 <= i < |acts| && acts[i].Draw? :: screens[i].queue != [] && Stays(wide, screens[i]))
            <==> forall i | 0 <= i < |acts| && acts[i].Draw? && screens[LastFit(acts, i)].queue != [] ::
                   screens[LastFit(acts, i)].cols > 0 && WithinRoom(wide, screens, acts, i)
  {
    assert |screens| == |acts| + 1;
    hide IsRun, Stays, WithinRoom;
    forall i | 0 <= i < |acts| && acts[i].Draw?
      ensures screens[i].queue != [] && screens[LastFit(acts, i)].cols > 0
      ensures if screens[LastFit(acts, i)].queue == [] then Stays(wide, screens[i])
              else Stays(wide, screens[i]) <==> WithinRoom(wide, screens, acts, i)
    {
      DrawStays(wide, screens, acts, i);
    }
  }

  /** One text at a time: when no fit finds another text queued, nothing scrolls off. */
  lemma OneAtATime(wide: char -> bool, screens: seq<Screen>, acts: seq<Act>)
    requires IsRun(wide, screens, acts)
    requires forall i | 0 <= i < |acts| && (acts[i].Draw? || acts[i].Reset?) :: screens[i + 1].queue == []
    ensures forall i | 0 <= i < |acts| && acts[i].Draw? :: screens[i].queue != [] && Stays(wide, screens[i])
  {
    forall i | 0 <= i < |acts| && acts[i].Draw? ensures screens[i].queue != [] && Stays(wide, screens[i]) {
      var f := LastFit(acts, i);
      if f > 0 { assert screens[f - 1 + 1].queue == []; }
      DrawStays(wide, screens, acts, i);
    }
  }

  // ---- several texts in one go ----

  function PushAll(wide: char -> bool, s: Screen, texts: seq<string>): Screen
    requires s.cols >= 2
    ensures PushAll(wide, s, texts).cols == s.cols && PushAll(wide, s, texts).queue == s.queue + texts
    ensures PushAll(wide, s, texts).cursor == s.cursor && PushAll(wide, s, texts).rows >= s.rows
  {
    if texts == [] then s
    else
      var front := PushAll(wide, s, texts[..|texts| - 1]);
      assert s.queue + texts == s.queue + texts[..|texts| - 1] + [texts[|texts| - 1]];
      Next(wide, front, Push(texts[|texts| - 1]))
  }

  /** Everything queued is drawn, and each text stays. */
  predicate AllStay(wide: char -> bool, s: Screen)
    requires s.cols >= 2
    decreases |s.queue|
  {
    s.queue != [] ==> Stays(wide, s) && AllStay(wide, Next(wide, s, Draw))
  }

  /** Drawing the texts from the second on starts no new row. */
  predicate OneRow(cols: nat, wide: char -> bool, p: Pen, texts: seq<string>)
    decreases |texts|
  {
    texts != [] ==>
      && PutAll(cols, wide, p, Shows(Showing, texts[0])).rows == p.rows
      && OneRow(cols, wide, PutAll(cols, wide, p, Shows(Showing, texts[0])), texts[1..])
  }

  lemma {:induction false} PutDown(cols: nat, wide: char -> bool, p: Pen, text: string)
    ensures PutAll(cols, wide, p, text).rows >= p.rows
    decreases |text|
  {
    if text != "" { PutDown(cols, wide, Put(cols, wide, p, text[0]), text[1..]); }
  }

  lemma {:induction false} FittedDraws(wide: char -> bool, s: Screen)
    requires Fitted(s)
    ensures AllStay(wide, s) <==> OneRow(s.cols, wide, s.cursor, s.queue)
    decreases |s.queue|
  {
    hide PutAll;
    if s.queue != [] {
      PutDown(s.cols, wide, s.cursor, Shows(Showing, s.queue[0]));
      PutInside(s.cols, wide, s.cursor, Shows(Showing, s.queue[0]));
      FittedDraws(wide, Next(wide, s, Draw));
    }
  }

  /**
   Texts written in one go, as for the events of one response chunk, are drawn with a fit after each: all of them stay
   exactly when those from the second on start no new row, whatever was reserved for them.
   */
  lemma BurstStaysExactly(wide: char -> bool, s: Screen, texts: seq<string>)
    requires Fitted(s) && s.queue == [] && texts != [] && forall t | t in texts :: Counted(s.cols, wide, t)
    ensures AllStay(wide, PushAll(wide, s, texts))
            <==> OneRow(s.cols, wide, PutAll(s.cols, wide, s.cursor, Shows(Showing, texts[0])), texts[1..])
  {
    hide PutAll, RowsFor, Counted, AllStay, OneRow, Shows;
    var all := PushAll(wide, s, texts);
    AllStayFirst(wide, all);
    assert [] + texts == texts;
    FirstReserved(wide, s, texts);
    assert texts[0] in texts;
    CountedCovers(s.cols, wide, texts[0], s.cursor);
    PutInside(s.cols, wide, s.cursor, Shows(Showing, texts[0]));
    FittedDraws(wide, Next(wide, all, Draw));
  }

  lemma AllStayFirst(wide: char -> bool, s: Screen)
    requires s.cols >= 2 && s.queue != []
    ensures AllStay(wide, s) <==> Stays(wide, s) && AllStay(wide, Next(wide, s, Draw))
  {
  }

  lemma {:induction false} FirstReserved(wide: char -> bool, s: Screen, texts: seq<string>)
    requires s.cols >= 2 && texts != []
    ensures PushAll(wide, s, texts).rows >= s.rows + RowsFor(texts[0], s.cols)
    decreases |texts|
  {
    hide RowsFor;
    if |texts| == 1 {
      assert texts[..0] == [];
    } else {
      FirstReserved(wide, s, texts[..|texts| - 1]);
    }
  }

  lemma {:induction false} PlainCounted(cols: nat, wide: char -> bool, text: string)
    requires ESCAPE !in text && Fits(cols, wide, text)
    ensures Counted(cols, wide, text) && Shows(Showing, text) == text
  {
    var items := PlainItems(text);
    PlainRenders(text);
    ShowsVisible(items);
  }

  function PlainItems(text: string): (items: seq<Item>)
    ensures ESCAPE !in text ==> Styled(items)
  {
    if text == "" then [] else [Plain(text[0])] + PlainItems(text[1..])
  }

  lemma {:induction false} PlainRenders(text: string)
    ensures Render(PlainItems(text)) == text == Visible(PlainItems(text))
  {
    if text != "" {
      PlainRenders(text[1..]);
      assert PlainItems(text)[1..] == PlainItems(text[1..]);
    }
  }

  /** Two events of one chunk: the fit after the first takes away the rows that the second text needs. */
  lemma SecondTextScrolls(wide: char -> bool) returns (screens: seq<Screen>, acts: seq<Act>)
    requires !wide('a') && !wide('b')
    ensures IsRun(wide, screens, acts) && acts == [Push("a"), Push("\nb"), Draw, Draw]
    ensures screens[0] == Screen(80, 1, Pen(0, 0), "", [])
    ensures screens[2].rows == 6 && Stays(wide, screens[2])
    ensures screens[3].rows == 1 && !Stays(wide, screens[3])
  {
    hide IsRun, PutAll, Shows, RowsFor, Counted;
    var a, b := "a", "\nb";
    acts := [Push(a), Push(b), Draw, Draw];
    var s0 := Screen(80, 1, Pen(0, 0), "", []);
    var s1 := Screen(80, 3, Pen(0, 0), "", [a]);
    var s2 := Screen(80, 6, Pen(0, 0), "", [a, b]);
    var s3 := Screen(80, 1, Pen(0, 1), "" + a, [b]);
    var s4 := Screen(80, 2, Pen(1, 1), "" + a + b, []);
    screens := [s0, s1, s2, s3, s4];
    TwoTexts(wide, a, b);
    assert Next(wide, s0, acts[0]) == s1 && Next(wide, s1, acts[1]) == s2;
    assert s2.queue[1..] == s3.queue && Next(wide, s2, Draw) == s3;
    assert s3.queue[1..] == [] && Next(wide, s3, Draw) == s4;
    FourActs(wide, screens, acts);
  }

  lemma TwoTexts(wide: char -> bool, a: string, b: string)
    requires a == "a" && b == "\nb" && !wide('a') && !wide('b')
    ensures RowsFor(a, 80) == 2 && RowsFor(b, 80) == 3
    ensures PutAll(80, wide, Pen(0, 0), Shows(Showing, a)) == Pen(0, 1)
    ensures PutAll(80, wide, Pen(0, 1), Shows(Showing, b)) == Pen(1, 1)
    ensures Counted(80, wide, a) && Counted(80, wide, b)
  {
    hide Counted, CeilDiv;
    PlainCounted(80, wide, a);
    PlainCounted(80, wide, b);
    CeilSmall();
    assert a[1..] == "" && b[1..] == "b" && b[1..][1..] == "";
    assert Steps(80, START, a) == Count(1, 1, false);
    assert Steps(80, Count(2, 0, false), b[1..]) == Count(2, 1, false);
    assert Steps(80, START, b) == Steps(80, Count(2, 0, false), b[1..]);
    assert PutAll(80, wide, Pen(1, 0), b[1..]) == Pen(1, 1);
  }

  lemma CeilSmall()
    ensures CeilDiv(2, 80) == 1 && CeilDiv(0, 80) == 0
  {
  }

  lemma FourActs(wide: char -> bool, screens: seq<Screen>, acts: seq<Act>)
    requires |screens| == 5 && |acts| == 4 && Fitted(screens[0]) && screens[0].queue == []
    requires Possible(screens[0], acts[0]) && screens[1] == Next(wide, screens[0], acts[0])
    requires Possible(screens[1], acts[1]) && screens[2] == Next(wide, screens[1], acts[1])
    requires Possible(screens[2], acts[2]) && screens[3] == Next(wide, screens[2], acts[2])
    requires Possible(screens[3], acts[3]) && screens[4] == Next(wide, screens[3], acts[3])
    requires forall i | 0 <= i < 4 && acts[i].Push? :: Counted(screens[i].cols, wide, acts[i].data)
    ensures IsRun(wide, screens, acts)
  {
    hide Next, Counted, Possible;
    forall i | 0 <= i < 4 ensures Possible(screens[i], acts[i]) && screens[i + 1] == Next(wide, screens[i], acts[i]) {
      assert i == 0 || i == 1 || i == 2 || i == 3;
    }
  }

  // ---- a terminal that draws what is queued before it changes its size ----

  /** All that is queued is drawn, with a fit after each text. */
  function Drained(wide: char -> bool, s: Screen): (d: Screen)
    requires s.cols >= 2
    ensures d.cols == s.cols && d.queue == [] && d.shown == s.shown + Concat(s.queue)
    decreases |s.queue|
  {
    if s.queue == [] then assert s.shown + "" == s.shown; s
    else
      Regroup(s.shown, s.queue[0], Concat(s.queue[1..]));
      Drained(wide, Next(wide, s, Draw))
  }

  /** The rows asked for were computed before anything is drawn; a resize to the same size does nothing. */
  function Resized(wide: char -> bool, s: Screen, rows: nat): Screen
    requires s.cols >= 2
  {
    if rows == s.rows then s else Drained(wide, s).(rows := rows)
  }

  function NextDraining(wide: char -> bool, s: Screen, act: Act): Screen
    requires Possible(s, act) && !act.Reset?
  {
    match act
    case Push(data) => var r := Resized(wide, s, s.rows + RowsFor(data, s.cols)); r.(queue := r.queue + [data])
    case Mark => Next(wide, s, Mark)
    case Draw =>
      var d := Screen(s.cols, s.rows, Drawn(wide, s), s.shown + s.queue[0], s.queue[1..]);
      Resized(wide, d, Max(d.cursor.rows + 1, 1))
  }

  /** At most the first text queued shows anything, and the rows cover it. */
  ghost predicate Provided(wide: char -> bool, s: Screen) {
    && s.cols >= 2 && s.cursor.x <= s.cols && s.cursor.rows + 1 <= s.rows
    && (s.queue != [] ==> Stays(wide, s))
    && forall k | 1 <= k < |s.queue| :: s.queue[k] == ""
  }

  lemma {:induction false} MarksDrained(wide: char -> bool, s: Screen)
    requires s.cols >= 2 && forall k | 0 <= k < |s.queue| :: s.queue[k] == ""
    ensures Drained(wide, s).cursor == s.cursor
    ensures s.cursor.rows + 1 <= s.rows ==> AllStay(wide, s)
    decreases |s.queue|
  {
    if s.queue != [] {
      DrawNothing(s.cols, wide, s.cursor);
      MarksDrained(wide, Next(wide, s, Draw));
    }
  }

  lemma ProvidedDrains(wide: char -> bool, s: Screen)
    requires Provided(wide, s)
    ensures AllStay(wide, s)
    ensures var d := Drained(wide, s); d.cursor.x <= d.cols && d.cursor.rows + 1 <= s.rows
  {
    hide PutAll;
    if s.queue != [] {
      PutInside(s.cols, wide, s.cursor, Shows(Showing, s.queue[0]));
      MarksDrained(wide, Next(wide, s, Draw));
    }
  }

  lemma ProvidedStep(wide: char -> bool, s: Screen, act: Act)
    requires Provided(wide, s) && Possible(s, act) && !act.Reset?
    requires act.Push? ==> Counted(s.cols, wide, act.data)
    ensures var t := NextDraining(wide, s, act);
            && Provided(wide, t)
            && t.shown + Concat(t.queue) == s.shown + Concat(s.queue) + if act.Push? then act.data else ""
  {
    hide PutAll, RowsFor, Counted, AllStay, Shows;
    ProvidedDrains(wide, s);
    var t := NextDraining(wide, s, act);
    match act {
      case Push(data) =>
        RowsReserved(data, s.cols);
        CountedCovers(s.cols, wide, data, t.cursor);
        assert t.queue == [data] && [data][1..] == [] && Concat([data]) == data + "";
      case Mark =>
        DrawNothing(s.cols, wide, s.cursor);
        ConcatAppend(s.queue, [""]);
        assert [""][1..] == [] && Concat([""]) == "" + "" && Concat(s.queue) + "" == Concat(s.queue);
      case Draw =>
        var d := Screen(s.cols, s.rows, Drawn(wide, s), s.shown + s.queue[0], s.queue[1..]);
        PutInside(s.cols, wide, s.cursor, Shows(Showing, s.queue[0]));
        Regroup(s.shown, s.queue[0], Concat(s.queue[1..]));
        MarksDrained(wide, d);
        DrawNothing(s.cols, wide, d.cursor);
    }
  }

  lemma RowsReserved(data: string, cols: nat)
    requires cols > 0
    ensures RowsFor(data, cols) >= 1
  {
    RowsGrow(cols, START, data);
  }

  lemma {:induction false} RowsGrow(cols: nat, s: Count, data: string)
    requires cols > 0
    ensures Steps(cols, s, data).rows >= s.rows
    decreases |data|
  {
    hide CeilDiv;
    if data != "" { RowsGrow(cols, Step(cols, s, data[0]), data[1..]); }
  }

  /**
   On such a terminal nothing ever scrolls off while the width stays, however the pushes and draws fall: whenever what
   is queued is drawn, each text of it stays. And no text is lost or comes twice.
   */
  lemma {:induction false} DrainingNeverScrolls(wide: char -> bool, screens: seq<Screen>, acts: seq<Act>, i: nat)
    requires |screens| == |acts| + 1 && Fitted(screens[0]) && screens[0].queue == []
    requires forall k | 0 <= k < |acts| ::
               && Possible(screens[k], acts[k]) && !acts[k].Reset?
               && screens[k + 1] == NextDraining(wide, screens[k], acts[k])
               && (acts[k].Push? ==> Counted(screens[k].cols, wide, acts[k].data))
    requires i <= |acts|
    ensures screens[i].cols >= 2 && AllStay(wide, screens[i]) && Provided(wide, screens[i])
    ensures screens[i].shown + Concat(screens[i].queue) == screens[0].shown + Pushed(acts[..i])
    decreases i
  {
    if i == 0 {
      ProvidedDrains(wide, screens[0]);
    } else {
      hide Counted, AllStay, Provided, NextDraining;
      DrainingNeverScrolls(wide, screens, acts, i - 1);
      ProvidedStep(wide, screens[i - 1], acts[i - 1]);
      assert acts[..i][..i - 1] == acts[..i - 1];
      Regroup(screens[0].shown, Pushed(acts[..i - 1]), if acts[i - 1].Push? then acts[i - 1].data else "");
      ProvidedDrains(wide, screens[i]);
    }
  }

  /** The texts pushed, one behind the other. */
  function Pushed(acts: seq<Act>): string {
    if acts == [] then ""
    else Pushed(acts[..|acts| - 1]) + match acts[|acts| - 1] case Push(data) => data case _ => ""
  }

  // ---- the block ----

  /** What a write makes of the content and of the newlines held back. */
  lemma WriteSplits(content: string, trailing: string, data: string)
    requires (content == "" || content[|content| - 1] != NEWLINE) && forall c | c in trailing :: c == NEWLINE
    ensures var body := StripNewlines(trailing + data);
            var rest := (trailing + data)[|body|..];
            && (forall c | c in rest :: c == NEWLINE)
            && content + body + rest == content + trailing + data
            && content + body == StripNewlines(content + trailing + data)
            && (content + body == "" || (content + body)[|content + body| - 1] != NEWLINE)
  {
    hide StripNewlines;
    var body := StripNewlines(trailing + data);
    var rest := (trailing + data)[|body|..];
    assert content + body + rest == content + trailing + data;
    StripUnique(content + body, rest);
  }

  class Block {
    var trailingNewlines: string
    var content: string
    var screen: Screen
    /** Which characters the terminal draws two columns wide. */
    const wide: char -> bool
    /** What was still queued when the width last changed. */
    ghost var stale: string

    /** What was drawn and what is queued make up the content, after what an earlier width left queued. */
    ghost predicate Valid() reads this {
      && screen.cols >= 2 && screen.cursor.x <= screen.cols
      && (forall c | c in trailingNewlines :: c == NEWLINE)
      && (content == "" || content[|content| - 1] != NEWLINE)
      && screen.shown + Concat(screen.queue) == stale + content
    }

    /** Everything written. */
    function Written(): string reads this { content + trailingNewlines }

    constructor (cols: nat, wide: char -> bool)
      requires cols >= 2
      ensures Valid() && Written() == "" && stale == "" && this.wide == wide
      ensures screen == Screen(cols, 1, Pen(0, 0), "", []) && Fitted(screen)
    {
      trailingNewlines, content, stale := "", "", "";
      screen := Screen(cols, 1, Pen(0, 0), "", []);
      this.wide := wide;
    }

    /** Reserves rows for the data and queues it. */
    method Push(data: string)
      requires screen.cols >= 2
      modifies this`screen
      ensures screen == Next(wide, old(screen), Act.Push(data))
      ensures screen.shown + Concat(screen.queue) == old(screen.shown + Concat(screen.queue)) + data
    {
      var needed := RequiredRows(data, screen.cols);
      ConcatAppend(screen.queue, [data]);
      assert [data][1..] == [] && Concat([data]) == data + "";
      screen := screen.(rows := screen.rows + needed);
      screen := screen.(queue := screen.queue + [data]);
    }

    /** The terminal draws the first text queued; the callback then resizes it to the rows in use. */
    method DrawNext()
      requires Valid() && screen.queue != []
      modifies this`screen
      ensures Valid() && screen == Next(wide, old(screen), Draw)
      ensures Fitted(screen)
    {
      hide PutAll, Shows;
      ghost var s := screen;
      PutInside(s.cols, wide, s.cursor, Shows(Showing, s.queue[0]));
      screen := Screen(screen.cols, screen.rows, Drawn(wide, screen), screen.shown + screen.queue[0],
                       screen.queue[1..]);
      Regroup(s.shown, s.queue[0], Concat(screen.queue));
      screen := screen.(rows := Max(screen.cursor.rows + 1, 1));
    }

    /** The container changed its width: the terminal is emptied and everything written again, behind what is queued. */
    method Reflow(width: nat)
      requires Valid() && width >= 2
      modifies this`screen, this`stale
      ensures Valid() && stale == Concat(old(screen.queue))
      ensures var empty := Next(wide, old(screen), Reset(width));
              screen == if content == "" then empty else Next(wide, empty, Act.Push(content))
    {
      screen := Screen(width, 1, Pen(0, 0), "", screen.queue);
      stale := Concat(screen.queue);
      assert "" + stale == stale && stale + "" == stale;
      if content != "" { Push(content); }
    }

    /** Holds back the newlines at the end until something follows them; pushes the rest. */
    method Write(data: string)
      requires Valid()
      modifies this`trailingNewlines, this`content, this`screen
      ensures Valid() && Written() == old(Written()) + data
      ensures content == StripNewlines(old(Written()) + data)
      ensures old(content) <= content
      ensures screen == if content == old(content) then old(screen)
                        else Next(wide, old(screen), Act.Push(content[|old(content)|..]))
    {
      hide StripNewlines, RowsFor, Concat, PutAll, Shows, Drawn, CeilDiv;
      WriteSplits(content, trailingNewlines, data);
      var buffered := trailingNewlines + data;
      var body := StripNewlines(buffered);
      trailingNewlines := buffered[|body|..];
      if body == "" { return; }
      ghost var was := content;
      content := content + body;
      assert content[|was|..] == body;
      Push(body);
      Regroup(stale, was, body);
    }

    /** Ends the block with one more fit. */
    method Finish()
      requires Valid()
      modifies this`screen
      ensures Valid() && screen == Next(wide, old(screen), Mark)
      // one text more to draw, and so one fit more, but nothing more to show
      ensures |screen.queue| == |old(screen.queue)| + 1 && Concat(screen.queue) == Concat(old(screen.queue))
    {
      ConcatAppend(screen.queue, [""]);
      assert [""][1..] == [] && Concat([""]) == "" + "";
      assert Concat(screen.queue) + "" == Concat(screen.queue);
      screen := screen.(queue := screen.queue + [""]);
    }

    /** Once all is drawn the terminal shows the content exactly when the last change of width found nothing queued. */
    lemma ShowsContent()
      requires Valid() && screen.queue == []
      ensures screen.shown == content <==> stale == ""
    {
      assert screen.shown + "" == screen.shown && "" + content == content;
    }
  }
}
