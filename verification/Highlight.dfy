/** The quiz map with its matches marked: HTML that still says the map. */
module Highlight {
  import opened Text

  datatype Match = Match(pick: string, whole: string, start: nat, end: nat)

  const OPEN := "<mark>"
  const CLOSE := "</mark>"

  function EscapeChar(c: char): (r: string)
    ensures r != "" && '<' !in r && '>' !in r && '"' !in r
  {
    if c == '<' then "&lt;"
    else if c == '>' then "&gt;"
    else if c == '&' then "&amp;"
    else if c == '"' then "&quot;"
    else [c]
  }

  function Escape(s: string): string {
    if s == "" then "" else EscapeChar(s[0]) + Escape(s[1..])
  }

  function Unescape(s: string): string
    decreases |s|
  {
    if s == "" then ""
    else if "&lt;" <= s then "<" + Unescape(s[4..])
    else if "&gt;" <= s then ">" + Unescape(s[4..])
    else if "&amp;" <= s then "&" + Unescape(s[5..])
    else if "&quot;" <= s then "\"" + Unescape(s[6..])
    else [s[0]] + Unescape(s[1..])
  }

  function RemoveTags(s: string): string
    decreases |s|
  {
    if s == "" then ""
    else if OPEN <= s then RemoveTags(s[|OPEN|..])
    else if CLOSE <= s then RemoveTags(s[|CLOSE|..])
    else [s[0]] + RemoveTags(s[1..])
  }

  lemma {:induction false} EscapeAppend(a: string, b: string)
    ensures Escape(a + b) == Escape(a) + Escape(b)
  {
    if a == "" {
      assert a + b == b;
    } else {
      assert (a + b)[1..] == a[1..] + b;
      EscapeAppend(a[1..], b);
    }
  }

  lemma UnescapeChar(c: char, rest: string)
    ensures Unescape(EscapeChar(c) + rest) == [c] + Unescape(rest)
  {
    hide EscapeChar, Unescape;
    UnescapePrefix(c, EscapeChar(c), EscapeChar(c) + rest);
    assert (EscapeChar(c) + rest)[|EscapeChar(c)|..] == rest;
  }

  lemma UnescapePrefix(c: char, e: string, s: string)
    requires e == EscapeChar(c) && e <= s
    ensures Unescape(s) == [c] + Unescape(s[|e|..])
  {
    assert s[0] == e[0];
    if |e| > 1 {
      assert s[1] == e[1];
      assert "&lt;" <= s <==> e == "&lt;";
      assert "&gt;" <= s <==> e == "&gt;";
      assert "&amp;" <= s <==> e == "&amp;";
    }
  }

  lemma {:induction false} UnescapeEscape(s: string)
    ensures Unescape(Escape(s)) == s && forall c | c in Escape(s) :: c !in "<>\""
  {
    if s != "" {
      UnescapeEscape(s[1..]);
      UnescapeChar(s[0], Escape(s[1..]));
      assert s == [s[0]] + s[1..];
    }
  }

  lemma {:induction false} TagsAfterText(a: string, b: string)
    requires '<' !in a
    ensures RemoveTags(a + b) == a + RemoveTags(b)
  {
    if a == "" {
      assert a + b == b;
    } else {
      assert a[0] in a && (a + b)[1..] == a[1..] + b && (a + b)[0] == a[0];
      assert OPEN[0] == '<' && CLOSE[0] == '<';
      TagsAfterText(a[1..], b);
      assert a == [a[0]] + a[1..];
    }
  }

  lemma TagGone(b: string)
    ensures RemoveTags(OPEN + b) == RemoveTags(b) && RemoveTags(CLOSE + b) == RemoveTags(b)
  {
    assert (OPEN + b)[|OPEN|..] == b && (CLOSE + b)[|CLOSE|..] == b;
    assert (CLOSE + b)[1] == '/';
  }

  // ---- what a browser marks ----

  /** The length of the first character as it is written: an entity or the character itself. */
  function Glyph(s: string): (n: nat)
    requires s != ""
    ensures 1 <= n <= |s|
  {
    if "&lt;" <= s || "&gt;" <= s then 4 else if "&amp;" <= s then 5 else if "&quot;" <= s then 6 else 1
  }

  /** The spans between the tags of a text, in characters shown, from character `at` on with a tag open since `open`. */
  function ReadMarks(s: string, at: nat, open: Option<nat>): seq<(nat, nat)>
    decreases |s|
  {
    if s == "" then []
    else if OPEN <= s then ReadMarks(s[|OPEN|..], at, Some(at))
    else if CLOSE <= s then (if open.Some? then [(open.value, at)] else []) + ReadMarks(s[|CLOSE|..], at, None)
    else ReadMarks(s[Glyph(s)..], at + 1, open)
  }

  lemma ReadChar(c: char, rest: string, at: nat, open: Option<nat>)
    ensures ReadMarks(EscapeChar(c) + rest, at, open) == ReadMarks(rest, at + 1, open)
  {
    var s := EscapeChar(c) + rest;
    assert s[0] == EscapeChar(c)[0] && EscapeChar(c)[0] in EscapeChar(c);
    assert OPEN[0] == '<' && CLOSE[0] == '<';
    GlyphOf(c, rest);
    assert s[|EscapeChar(c)|..] == rest;
  }

  lemma GlyphOf(c: char, rest: string)
    ensures Glyph(EscapeChar(c) + rest) == |EscapeChar(c)|
  {
    var s := EscapeChar(c) + rest;
    assert s[0] == EscapeChar(c)[0];
    if c == '<' || c == '>' || c == '&' || c == '"' {
      assert s[1] == EscapeChar(c)[1];
    }
  }

  lemma {:induction false} ReadText(a: string, rest: string, at: nat, open: Option<nat>)
    ensures ReadMarks(Escape(a) + rest, at, open) == ReadMarks(rest, at + |a|, open)
    decreases |a|
  {
    hide ReadMarks, EscapeChar;
    if a == "" {
      assert Escape(a) + rest == rest;
    } else {
      var more := Escape(a[1..]) + rest;
      assert Escape(a) + rest == EscapeChar(a[0]) + more;
      ReadChar(a[0], more, at, open);
      ReadText(a[1..], rest, at + 1, open);
    }
  }

  lemma ReadTags(rest: string, at: nat, from: nat)
    ensures ReadMarks(OPEN + rest, at, None) == ReadMarks(rest, at, Some(at))
    ensures ReadMarks(CLOSE + rest, at, Some(from)) == [(from, at)] + ReadMarks(rest, at, None)
  {
    assert (OPEN + rest)[|OPEN|..] == rest && (CLOSE + rest)[|CLOSE|..] == rest;
    assert (CLOSE + rest)[1] == '/';
  }

  lemma ReadSpan(before: string, marked: string, rest: string, at: nat)
    ensures var start, end := at + |before|, at + |before| + |marked|;
            ReadMarks(Escape(before) + OPEN + Escape(marked) + CLOSE + rest, at, None)
            == [(start, end)] + ReadMarks(rest, end, None)
  {
    hide ReadMarks, Escape;
    var tail := CLOSE + rest;
    var inner := Escape(marked) + tail;
    assert Escape(before) + OPEN + Escape(marked) + CLOSE + rest == Escape(before) + (OPEN + inner);
    ReadText(before, OPEN + inner, at, None);
    ReadTags(inner, at + |before|, 0);
    ReadText(marked, tail, at + |before|, Some(at + |before|));
    ReadTags(rest, at + |before| + |marked|, at + |before|);
  }

  /** What is marked in a painted text are the spans it was painted with. */
  lemma {:induction false} MarksRead(text: string, spans: seq<(nat, nat)>, cursor: nat)
    requires cursor <= |text| && Disjoint(spans, cursor, |text|)
    ensures ReadMarks(Painted(text, spans, cursor), cursor, None) == spans
    decreases |spans|
  {
    hide ReadMarks, Escape;
    EndOrdered(spans, cursor, |text|);
    if spans == [] {
      ReadText(text[cursor..], "", cursor, None);
      assert Escape(text[cursor..]) + "" == Escape(text[cursor..]);
      assert ReadMarks("", |text|, None) == [] by { NoMarks(|text|); }
    } else {
      var (start, end) := spans[0];
      EndOrdered(spans[1..], end, |text|);
      MarksRead(text, spans[1..], end);
      ReadSpan(text[cursor..start], text[start..end], Painted(text, spans[1..], end), cursor);
      assert spans == [spans[0]] + spans[1..];
    }
  }

  lemma NoMarks(at: nat)
    ensures ReadMarks("", at, None) == []
  {
  }

  // ---- which spans are marked ----

  /** Every match lies in the text and quotes it. */
  ghost predicate InRange(text: string, matches: seq<Match>) {
    forall m | m in matches :: m.start <= m.end <= |text| && m.whole == text[m.start..m.end]
  }

  ghost predicate ByStart(order: seq<Match>) {
    forall i, j | 0 <= i < j < |order| :: order[i].start <= order[j].start
  }

  /** From `cursor` on: a match that starts before it or is empty is passed over. */
  function Spans(order: seq<Match>, cursor: nat): seq<(nat, nat)> {
    if order == [] then []
    else
      var m := order[0];
      if m.start < cursor || m.end == m.start then Spans(order[1..], cursor)
      else [(m.start, m.end)] + Spans(order[1..], m.end)
  }

  /** Non-empty, in order, from `cursor` to `end`, none reaching into the next. */
  ghost predicate Disjoint(spans: seq<(nat, nat)>, cursor: nat, end: nat) {
    if spans == [] then cursor <= end
    else cursor <= spans[0].0 < spans[0].1 && Disjoint(spans[1..], spans[0].1, end)
  }

  function Painted(text: string, spans: seq<(nat, nat)>, cursor: nat): string
    requires Disjoint(spans, cursor, |text|)
    decreases |spans|
  {
    if spans == [] then Escape(text[cursor..])
    else
      EndOrdered(spans, cursor, |text|);
      var (start, end) := spans[0];
      Escape(text[cursor..start]) + OPEN + Escape(text[start..end]) + CLOSE + Painted(text, spans[1..], end)
  }

  lemma {:induction false} EndOrdered(spans: seq<(nat, nat)>, cursor: nat, end: nat)
    requires Disjoint(spans, cursor, end)
    ensures cursor <= end && (spans != [] ==> spans[0].1 <= end)
    decreases |spans|
  {
    if spans != [] { EndOrdered(spans[1..], spans[0].1, end); }
  }

  lemma {:induction false} SpansDisjoint(text: string, order: seq<Match>, cursor: nat)
    requires InRange(text, order) && cursor <= |text|
    ensures Disjoint(Spans(order, cursor), cursor, |text|)
    decreases |order|
  {
    if order != [] {
      var m := order[0];
      assert m in order && forall x | x in order[1..] :: x in order;
      SpansDisjoint(text, order[1..], if m.start < cursor || m.end == m.start then cursor else m.end);
    }
  }

  /** Stripping the marks and unescaping gives the text back. */
  lemma {:induction false} PaintedSaysText(text: string, spans: seq<(nat, nat)>, cursor: nat)
    requires cursor <= |text| && Disjoint(spans, cursor, |text|)
    ensures RemoveTags(Painted(text, spans, cursor)) == Escape(text[cursor..])
    decreases |spans|
  {
    hide RemoveTags, Escape;
    EndOrdered(spans, cursor, |text|);
    if spans == [] {
      UnescapeEscape(text[cursor..]);
      TagsAfterText(Escape(text[cursor..]), "");
      assert RemoveTags("") == "" by { NoTags(); }
      assert Escape(text[cursor..]) + "" == Escape(text[cursor..]);
    } else {
      var (start, end) := spans[0];
      EndOrdered(spans[1..], end, |text|);
      PaintedSaysText(text, spans[1..], end);
      MarkedSays(text[cursor..start], text[start..end], Painted(text, spans[1..], end));
      EscapeParts(text, cursor, start, end);
    }
  }

  lemma NoTags()
    ensures RemoveTags("") == ""
  {
  }

  lemma EscapeParts(text: string, a: nat, b: nat, c: nat)
    requires a <= b <= c <= |text|
    ensures Escape(text[a..]) == Escape(text[a..b]) + Escape(text[b..c]) + Escape(text[c..])
  {
    hide Escape;
    EscapeAppend(text[a..b], text[b..c]);
    EscapeAppend(text[a..b] + text[b..c], text[c..]);
    assert text[a..] == text[a..b] + text[b..c] + text[c..];
  }

  lemma MarkedSays(before: string, marked: string, rest: string)
    ensures RemoveTags(Escape(before) + OPEN + Escape(marked) + CLOSE + rest)
        == Escape(before) + Escape(marked) + RemoveTags(rest)
  {
    hide Escape, RemoveTags;
    var (b, m) := (Escape(before), Escape(marked));
    UnescapeEscape(before);
    UnescapeEscape(marked);
    assert b + OPEN + m + CLOSE + rest == b + (OPEN + (m + (CLOSE + rest)));
    TagsAfterText(b, OPEN + (m + (CLOSE + rest)));
    TagGone(m + (CLOSE + rest));
    TagsAfterText(m, CLOSE + rest);
    TagGone(rest);
    assert b + (m + RemoveTags(rest)) == b + m + RemoveTags(rest);
  }

  /** Removing tags and entities from the highlighted map gives the map, for any matches in any order. */
  lemma HighlightSaysMap(text: string, order: seq<Match>)
    requires InRange(text, order)
    ensures Disjoint(Spans(order, 0), 0, |text|)
    ensures Unescape(RemoveTags(Painted(text, Spans(order, 0), 0))) == text
  {
    SpansDisjoint(text, order, 0);
    PaintedSaysText(text, Spans(order, 0), 0);
    assert text[0..] == text;
    UnescapeEscape(text);
  }

  /** Marked spans never share a position. */
  lemma {:induction false} NoOverlap(spans: seq<(nat, nat)>, cursor: nat, end: nat, i: nat, j: nat)
    requires Disjoint(spans, cursor, end) && i < j < |spans|
    ensures spans[i].1 <= spans[j].0 && cursor <= spans[i].0
    decreases |spans|
  {
    if i > 0 {
      NoOverlap(spans[1..], spans[0].1, end, i - 1, j - 1);
    } else {
      StartsAfter(spans[1..], spans[0].1, end, j - 1);
    }
  }

  lemma {:induction false} StartsAfter(spans: seq<(nat, nat)>, cursor: nat, end: nat, j: nat)
    requires Disjoint(spans, cursor, end) && j < |spans|
    ensures cursor <= spans[j].0
    decreases |spans|
  {
    if j > 0 { StartsAfter(spans[1..], spans[0].1, end, j - 1); }
  }

  ghost predicate Inside(m: Match, span: (nat, nat)) {
    span.0 <= m.start < span.1
  }

  /** A match marked, or passed over because it starts inside a marked span. */
  ghost predicate Hit(m: Match, spans: seq<(nat, nat)>) {
    (m.start, m.end) in spans || exists s :: s in spans && Inside(m, s)
  }

  lemma HitMore(m: Match, span: (nat, nat), spans: seq<(nat, nat)>)
    requires Hit(m, spans) || Inside(m, span)
    ensures Hit(m, [span] + spans)
  {
    assert span in [span] + spans && forall s | s in spans :: s in [span] + spans;
  }

  /** Only matches are marked. */
  lemma {:induction false} OnlyMatches(order: seq<Match>, cursor: nat, s: (nat, nat))
    requires s in Spans(order, cursor)
    ensures exists m :: m in order && s == (m.start, m.end)
    decreases |order|
  {
    var (m, rest) := (order[0], order[1..]);
    assert order == [m] + rest && m in order;
    if m.start < cursor || m.end == m.start {
      OnlyMatches(rest, cursor, s);
    } else if s != (m.start, m.end) {
      OnlyMatches(rest, m.end, s);
    }
  }

  /** A non-empty match goes unmarked only when it starts inside a marked span. */
  lemma {:induction false} MatchHit(order: seq<Match>, cursor: nat, last: (nat, nat), m: Match)
    requires ByStart(order) && m in order && m.start < m.end && forall x | x in order :: x.start <= x.end
    requires cursor > 0 ==> last.1 == cursor && forall x | x in order :: last.0 <= x.start
    ensures Hit(m, Spans(order, cursor)) || (cursor > 0 && Inside(m, last))
    decreases |order|
  {
    hide Spans, Hit;
    var (first, rest) := (order[0], order[1..]);
    assert order == [first] + rest && first in order && forall x | x in rest :: x in order;
    SpansFirst(order, cursor);
    TailByStart(order);
    if first.start < cursor || first.end == first.start {
      if m in rest { MatchHit(rest, cursor, last, m); }
    } else {
      var span := (first.start, first.end);
      if m in rest {
        MatchHit(rest, first.end, span, m);
        HitMore(m, span, Spans(rest, first.end));
      } else {
        HitSelf(m, Spans(rest, first.end));
      }
    }
  }

  lemma SpansFirst(order: seq<Match>, cursor: nat)
    requires order != []
    ensures Spans(order, cursor) ==
              if order[0].start < cursor || order[0].end == order[0].start then Spans(order[1..], cursor)
              else [(order[0].start, order[0].end)] + Spans(order[1..], order[0].end)
  {
  }

  lemma HitSelf(m: Match, spans: seq<(nat, nat)>)
    ensures Hit(m, [(m.start, m.end)] + spans)
  {
    assert ([(m.start, m.end)] + spans)[0] == (m.start, m.end);
  }

  lemma TailByStart(order: seq<Match>)
    requires ByStart(order) && order != []
    ensures ByStart(order[1..]) && (|order| > 1 ==> order[0].start <= order[1].start)
  {
  }

  function Insert(m: Match, order: seq<Match>): seq<Match> {
    if order == [] || m.start <= order[0].start then [m] + order else [order[0]] + Insert(m, order[1..])
  }

  /** Sorted by start, equal starts in their old order. */
  function SortByStart(matches: seq<Match>): seq<Match> {
    if matches == [] then [] else Insert(matches[0], SortByStart(matches[1..]))
  }

  lemma {:induction false} InsertSorts(m: Match, order: seq<Match>)
    requires ByStart(order)
    ensures var r := Insert(m, order); ByStart(r) && r != [] && (r[0] == m || (order != [] && r[0] == order[0]))
  {
    hide ByStart;
    if order == [] || m.start <= order[0].start {
      InFront(m, order);
    } else {
      TailByStart(order);
      InsertSorts(m, order[1..]);
      InFront(order[0], Insert(m, order[1..]));
    }
  }

  lemma {:induction false} InsertKeeps(m: Match, order: seq<Match>)
    ensures multiset(Insert(m, order)) == multiset(order) + multiset{m}
  {
    if order != [] && m.start > order[0].start {
      InsertKeeps(m, order[1..]);
      assert order == [order[0]] + order[1..];
    }
  }

  lemma InFront(first: Match, rest: seq<Match>)
    requires ByStart(rest) && (rest != [] ==> first.start <= rest[0].start)
    ensures ByStart([first] + rest)
  {
  }

  /** Sorting keeps the matches and orders them. */
  lemma {:induction false} SortSorts(matches: seq<Match>)
    ensures ByStart(SortByStart(matches)) && multiset(SortByStart(matches)) == multiset(matches)
  {
    if matches != [] {
      SortSorts(matches[1..]);
      InsertSorts(matches[0], SortByStart(matches[1..]));
      InsertKeeps(matches[0], SortByStart(matches[1..]));
      assert matches == [matches[0]] + matches[1..];
    }
  }

  /** The matches that start at a position, in their order. */
  function StartingAt(matches: seq<Match>, start: nat): seq<Match> {
    if matches == [] then []
    else (if matches[0].start == start then [matches[0]] else []) + StartingAt(matches[1..], start)
  }

  /** Of matches that start together the earlier stays first. */
  lemma {:induction false} SortStable(matches: seq<Match>, start: nat)
    ensures StartingAt(SortByStart(matches), start) == StartingAt(matches, start)
  {
    if matches != [] {
      SortStable(matches[1..], start);
      SortSorts(matches[1..]);
      InsertStable(matches[0], SortByStart(matches[1..]), start);
    }
  }

  lemma {:induction false} InsertStable(m: Match, order: seq<Match>, start: nat)
    requires ByStart(order)
    ensures StartingAt(Insert(m, order), start) == (if m.start == start then [m] else []) + StartingAt(order, start)
    decreases |order|
  {
    hide ByStart;
    if order != [] && m.start > order[0].start {
      TailByStart(order);
      InsertStable(m, order[1..], start);
    }
  }

  method HighlightMap(text: string, matches: seq<Match>) returns (out: string, ghost spans: seq<(nat, nat)>)
    requires InRange(text, matches)
    ensures spans == Spans(SortByStart(matches), 0)
    ensures Disjoint(spans, 0, |text|) && out == Painted(text, spans, 0)
    ensures Unescape(RemoveTags(out)) == text && ReadMarks(out, 0, None) == spans
    ensures forall m | m in matches && m.start < m.end :: Hit(m, spans)
  {
    hide ReadMarks, Unescape, RemoveTags, Escape, Hit, ByStart, Painted, Spans, Disjoint, SortByStart;
    var order := SortByStart(matches);
    spans := Spans(order, 0);
    SortSorts(matches);
    SameElements(matches, order);
    HighlightSaysMap(text, order);
    MarksRead(text, spans, 0);
    forall m | m in matches && m.start < m.end ensures Hit(m, Spans(order, 0)) {
      MatchHit(order, 0, (0, 0), m);
    }
    var cursor: nat := 0;
    out := "";
    assert order[0..] == order;
    ghost var all := Painted(text, Spans(order, 0), 0);
    assert "" + all == all;
    for i := 0 to |order|
      invariant cursor <= |text| && Disjoint(Spans(order[i..], cursor), cursor, |text|)
      invariant out + Painted(text, Spans(order[i..], cursor), cursor) == all
    {
      var m := order[i];
      assert m in order && order[i..][0] == m && order[i..][1..] == order[i + 1..];
      SkipFirst(order[i..], cursor);
      if m.start < cursor { continue; }
      if m.end == m.start { continue; }
      PaintFirst(text, order[i..], cursor);
      ghost var rest := Painted(text, Spans(order[i + 1..], m.end), m.end);
      ghost var was := out;
      out := out + Escape(text[cursor..m.start]);
      out := out + (OPEN + Escape(m.whole) + CLOSE);
      assert out + rest == was + (Escape(text[cursor..m.start]) + OPEN + Escape(m.whole) + CLOSE + rest);
      cursor := m.end;
    }
    assert order[|order|..] == [];
    PaintNone(text, cursor);
    out := out + Escape(text[cursor..]);
  }

  lemma PaintNone(text: string, cursor: nat)
    requires cursor <= |text|
    ensures Disjoint(Spans([], cursor), cursor, |text|)
        && Painted(text, Spans([], cursor), cursor) == Escape(text[cursor..])
  {
  }

  lemma SkipFirst(order: seq<Match>, cursor: nat)
    requires order != []
    ensures order[0].start < cursor || order[0].end == order[0].start
        ==> Spans(order, cursor) == Spans(order[1..], cursor)
  {
  }

  lemma PaintFirst(text: string, order: seq<Match>, cursor: nat)
    requires order != [] && cursor <= |text| && Disjoint(Spans(order, cursor), cursor, |text|)
    requires cursor <= order[0].start < order[0].end
    ensures var m := order[0];
            && m.end <= |text| && Disjoint(Spans(order[1..], m.end), m.end, |text|)
            && Painted(text, Spans(order, cursor), cursor) ==
                 Escape(text[cursor..m.start]) + OPEN + Escape(text[m.start..m.end]) + CLOSE
                 + Painted(text, Spans(order[1..], m.end), m.end)
  {
    var m := order[0];
    assert Spans(order, cursor)[1..] == Spans(order[1..], m.end);
    EndOrdered(Spans(order, cursor), cursor, |text|);
  }

  lemma SameElements(matches: seq<Match>, order: seq<Match>)
    requires multiset(order) == multiset(matches)
    ensures forall m :: m in order <==> m in matches
  {
    forall m ensures m in order <==> m in matches {
      assert m in order <==> m in multiset(order);
      assert m in matches <==> m in multiset(matches);
    }
  }
}
