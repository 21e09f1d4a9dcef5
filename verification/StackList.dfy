/** Comma-separated stack lists: splitting, and the fallback order of a stack as a rotation of the list. */
module StackList {
  import opened Text

  const COMMA := ','

  /** The white space Go's TrimSpace removes. */
  predicate IsSpace(c: char) {
    var n := c as int;
    || 0x09 <= n <= 0x0D || n == 0x20 || n == 0x85 || n == 0xA0 || n == 0x1680 || 0x2000 <= n <= 0x200A
    || n == 0x2028 || n == 0x2029 || n == 0x202F || n == 0x205F || n == 0x3000
  }

  function TrimLeft(s: string): (r: string)
    ensures |r| <= |s| && (r != "" ==> !IsSpace(r[0]))
  {
    if s != "" && IsSpace(s[0]) then TrimLeft(s[1..]) else s
  }

  function TrimSpace(s: string): (r: string)
    ensures |r| <= |s| && (r != "" ==> !IsSpace(r[0]) && !IsSpace(r[|r| - 1]))
  {
    TrimRight(TrimLeft(s))
  }

  function TrimRight(s: string): (r: string)
    ensures r <= s && (r != "" ==> !IsSpace(r[|r| - 1]))
  {
    if s != "" && IsSpace(s[|s| - 1]) then TrimRight(s[..|s| - 1]) else s
  }

  /** Trimming cuts off white space in front and behind, and all of it. */
  lemma {:induction false} TrimCuts(s: string) returns (front: string, back: string)
    ensures s == front + TrimSpace(s) + back && forall c | c in front + back :: IsSpace(c)
    ensures TrimSpace(s) != "" ==> !IsSpace(TrimSpace(s)[0]) && !IsSpace(TrimSpace(s)[|TrimSpace(s)| - 1])
    decreases |s|
  {
    hide IsSpace;
    if s != "" && IsSpace(s[0]) {
      front, back := TrimCuts(s[1..]);
      front := [s[0]] + front;
      assert s == [s[0]] + s[1..];
    } else {
      front := "";
      back := TrimRightCuts(s);
    }
  }

  lemma {:induction false} TrimRightCuts(s: string) returns (back: string)
    ensures s == TrimRight(s) + back && forall c | c in back :: IsSpace(c)
    decreases |s|
  {
    hide IsSpace;
    back := "";
    if s != "" && IsSpace(s[|s| - 1]) {
      back := TrimRightCuts(s[..|s| - 1]);
      back := back + [s[|s| - 1]];
    }
  }

  /** A name a list can carry: not empty, no comma, no white space around it. */
  predicate Clean(x: string) {
    x != "" && COMMA !in x && TrimSpace(x) == x
  }

  function Trimmed(pieces: seq<string>): seq<string> {
    if pieces == [] then []
    else (if TrimSpace(pieces[0]) != "" then [TrimSpace(pieces[0])] else []) + Trimmed(pieces[1..])
  }

  /** The names in a comma-separated value: trimmed, empty ones dropped. */
  function Pieces(raw: string): seq<string> {
    Trimmed(SplitOn(raw, COMMA))
  }

  lemma {:induction false} TrimmedAppend(xs: seq<string>, ys: seq<string>)
    ensures Trimmed(xs + ys) == Trimmed(xs) + Trimmed(ys)
    decreases |xs|
  {
    hide TrimSpace;
    if xs == [] {
      assert xs + ys == ys;
    } else {
      assert (xs + ys)[1..] == xs[1..] + ys;
      TrimmedAppend(xs[1..], ys);
      var first := if TrimSpace(xs[0]) != "" then [TrimSpace(xs[0])] else [];
      Regroup(first, Trimmed(xs[1..]), Trimmed(ys));
    }
  }

  method Split(raw: string) returns (stacks: seq<string>)
    ensures stacks == Pieces(raw)
  {
    stacks := [];
    var parts := SplitOn(raw, COMMA);
    for i := 0 to |parts|
      invariant stacks == Trimmed(parts[..i])
    {
      var s := TrimSpace(parts[i]);
      assert parts[..i + 1] == parts[..i] + [parts[i]];
      TrimmedAppend(parts[..i], [parts[i]]);
      if s != "" { stacks := stacks + [s]; }
    }
    assert parts[..|parts|] == parts;
  }

  lemma {:induction false} TrimRightKeeps(s: string, c: char)
    requires c !in s
    ensures c !in TrimSpace(s)
  {
    TrimLeftPart(s, c);
  }

  lemma {:induction false} TrimLeftPart(s: string, c: char)
    requires c !in s
    ensures c !in TrimLeft(s)
  {
    if s != "" && IsSpace(s[0]) { TrimLeftPart(s[1..], c); }
  }

  lemma {:induction false} TrimmedClean(pieces: seq<string>)
    requires forall x | x in pieces :: COMMA !in x
    ensures forall x | x in Trimmed(pieces) :: Clean(x)
  {
    if pieces != [] {
      assert pieces[0] in pieces;
      assert forall x | x in pieces[1..] :: x in pieces;
      TrimmedClean(pieces[1..]);
      TrimRightKeeps(pieces[0], COMMA);
    }
  }

  lemma PiecesClean(raw: string)
    ensures forall x | x in Pieces(raw) :: Clean(x)
  {
    PiecesHaveNoSeparator(raw, COMMA);
    TrimmedClean(SplitOn(raw, COMMA));
  }

  lemma {:induction false} TrimmedOfClean(xs: seq<string>)
    requires forall x | x in xs :: Clean(x)
    ensures Trimmed(xs) == xs
  {
    if xs != [] {
      assert xs[0] in xs;
      assert forall x | x in xs[1..] :: x in xs;
      TrimmedOfClean(xs[1..]);
      assert xs == [xs[0]] + xs[1..];
    }
  }

  /** Splitting undoes joining exactly for lists of clean names. */
  lemma SplitUndoesJoin(xs: seq<string>)
    ensures Pieces(Join(xs, COMMA)) == xs <==> forall x | x in xs :: Clean(x)
  {
    if forall x | x in xs :: Clean(x) {
      if xs == [] {
        assert SplitOn("", COMMA) == [""] && TrimSpace("") == "";
        assert Trimmed([""]) == Trimmed([""][1..]);
      } else {
        SplitJoin(xs, COMMA);
        TrimmedOfClean(xs);
      }
    } else {
      PiecesClean(Join(xs, COMMA));
    }
  }

  /** A list is read run by run: nothing of a blank run, the trimmed name of any other, and both sides of a comma. */
  lemma PieceRuns(a: string, b: string)
    ensures Pieces(a + [COMMA] + b) == Pieces(a) + Pieces(b)
    ensures COMMA !in a ==> Pieces(a) == if TrimSpace(a) == "" then [] else [TrimSpace(a)]
  {
    hide TrimSpace;
    SplitBetween(a, b, COMMA);
    TrimmedAppend(SplitOn(a, COMMA), SplitOn(b, COMMA));
    if COMMA !in a {
      SplitPiece(a, COMMA);
      assert [a][1..] == [];
    }
  }

  /** White space around a name does not matter. */
  lemma {:induction false} TrimPadded(front: string, x: string, back: string)
    requires (forall c | c in front + back :: IsSpace(c)) && Clean(x)
    ensures TrimSpace(front + x + back) == x
    decreases |front| + |back|
  {
    hide IsSpace;
    var s := front + x + back;
    if front != "" {
      assert front[0] in front + back && forall c | c in front[1..] + back :: c in front + back;
      assert s[1..] == front[1..] + x + back;
      TrimPadded(front[1..], x, back);
    } else {
      assert s == x + back && TrimSpace(x) == x && !IsSpace(x[0]);
      TrimTail(x, back);
    }
  }

  lemma {:induction false} TrimTail(x: string, back: string)
    requires (forall c | c in back :: IsSpace(c)) && (x == "" || !IsSpace(x[|x| - 1]))
    ensures TrimRight(x + back) == x
    decreases |back|
  {
    hide IsSpace;
    if back == "" {
      assert x + back == x;
    } else {
      var last := |back| - 1;
      assert back[last] in back && forall c | c in back[..last] :: c in back;
      assert (x + back)[..|x + back| - 1] == x + back[..last];
      TrimTail(x, back[..last]);
    }
  }

  /** A clean name with white space around it. */
  ghost predicate Pads(text: string, name: string) {
    Clean(name) && exists front, back :: text == front + name + back && forall c | c in front + back :: IsSpace(c)
  }

  ghost predicate Padded(texts: seq<string>, names: seq<string>) {
    |texts| == |names| && forall i | 0 <= i < |names| :: Pads(texts[i], names[i])
  }

  /** Splitting gives the names of a list back, however they are padded. */
  lemma SplitPadded(texts: seq<string>, names: seq<string>)
    requires texts != [] && Padded(texts, names)
    ensures Pieces(Join(texts, COMMA)) == names
  {
    forall x | x in texts ensures COMMA !in x {
      var i :| 0 <= i < |texts| && texts[i] == x;
      assert Pads(x, names[i]);
      var front, back :| x == front + names[i] + back && forall c | c in front + back :: IsSpace(c);
      assert forall c | c in x :: c in front + back || c in names[i];
    }
    SplitJoin(texts, COMMA);
    TrimmedPadded(texts, names);
  }

  lemma {:induction false} TrimmedPadded(texts: seq<string>, names: seq<string>)
    requires Padded(texts, names)
    ensures Trimmed(texts) == names
  {
    hide IsSpace, TrimSpace;
    if names != [] {
      assert Pads(texts[0], names[0]);
      var front, back :| texts[0] == front + names[0] + back && forall c | c in front + back :: IsSpace(c);
      TrimPadded(front, names[0], back);
      TrimmedPadded(texts[1..], names[1..]);
      assert names[0] != "" && names == [names[0]] + names[1..];
    }
  }

  // ---- the fallback order ----

  function Without(xs: seq<string>, self: string): seq<string> {
    if xs == [] then []
    else (if xs[0] == self then [] else [xs[0]]) + Without(xs[1..], self)
  }

  function FirstIndex(xs: seq<string>, x: string): (i: nat)
    requires x in xs
    ensures i < |xs| && xs[i] == x && x !in xs[..i]
  {
    if xs[0] == x then 0 else 1 + FirstIndex(xs[1..], x)
  }

  /** From just after self to the end, then from the head to just before self; a list without self stays. */
  function Rotation(all: seq<string>, self: string): seq<string> {
    if self in all then
      var pivot := FirstIndex(all, self);
      Without(all[pivot + 1..], self) + all[..pivot]
    else all
  }

  lemma {:induction false} WithoutAppend(xs: seq<string>, ys: seq<string>, self: string)
    ensures Without(xs + ys, self) == Without(xs, self) + Without(ys, self)
  {
    if xs == [] {
      assert xs + ys == ys;
    } else {
      assert (xs + ys)[1..] == xs[1..] + ys;
      WithoutAppend(xs[1..], ys, self);
    }
  }

  method FindPivot(all: seq<string>, self: string) returns (pivot: int)
    ensures pivot == if self in all then FirstIndex(all, self) else -1
  {
    pivot := -1;
    for i := 0 to |all|
      invariant pivot == -1 && self !in all[..i]
    {
      if all[i] == self {
        return i;
      }
      assert all[..i + 1] == all[..i] + [all[i]];
    }
    assert all[..|all|] == all;
  }

  method Parse(raw: string, self: string) returns (fallbacks: seq<string>, found: bool)
    ensures found <==> self in Pieces(raw)
    ensures fallbacks == Rotation(Pieces(raw), self)
  {
    var all := Split(raw);
    var pivot := FindPivot(all, self);
    fallbacks := [];
    if pivot == -1 {
      fallbacks := fallbacks + all;
      return fallbacks, false;
    }
    fallbacks := CollectOthers(all[pivot + 1..], self);
    fallbacks := fallbacks + all[..pivot];
    return fallbacks, true;
  }

  method CollectOthers(tail: seq<string>, self: string) returns (fallbacks: seq<string>)
    ensures fallbacks == Without(tail, self)
  {
    fallbacks := [];
    for i := 0 to |tail|
      invariant fallbacks == Without(tail[..i], self)
    {
      assert tail[..i + 1] == tail[..i] + [tail[i]];
      WithoutAppend(tail[..i], [tail[i]], self);
      if tail[i] == self { continue; }
      fallbacks := fallbacks + [tail[i]];
    }
    assert tail[..|tail|] == tail;
  }

  lemma {:induction false} WithoutMultiset(xs: seq<string>, self: string)
    ensures multiset(Without(xs, self)) == multiset(xs)[self := 0]
  {
    if xs != [] {
      WithoutMultiset(xs[1..], self);
      assert xs == [xs[0]] + xs[1..];
    }
  }

  lemma Recombine(all: seq<string>, head: seq<string>, tail: seq<string>, self: string, rest: seq<string>)
    requires all == head + ([self] + tail) && self !in head && multiset(rest) == multiset(tail)[self := 0]
    ensures multiset(rest + head) == multiset(all)[self := 0]
    ensures self !in rest + head
  {
    var counts := multiset(head) + multiset{self} + multiset(tail);
    assert multiset(head)[self] == 0 && multiset(rest)[self] == 0;
    assert multiset(all) == counts;
    assert multiset(rest + head) == multiset(rest) + multiset(head);
    forall x ensures (multiset(rest) + multiset(head))[x] == counts[self := 0][x] {}
  }

  /** Self never appears, and every other listed element keeps its multiplicity. */
  lemma RotationKeepsOthers(all: seq<string>, self: string)
    ensures self !in Rotation(all, self)
    ensures multiset(Rotation(all, self)) == multiset(all)[self := 0]
  {
    hide Without, FirstIndex;
    if self in all {
      var p := FirstIndex(all, self);
      var (head, tail) := (all[..p], all[p + 1..]);
      WithoutMultiset(tail, self);
      assert all == head + ([self] + tail);
      Recombine(all, head, tail, self, Without(tail, self));
    } else {
      assert multiset(all)[self] == 0;
    }
  }

  ghost predicate AllDistinct(xs: seq<string>) {
    forall i, j | 0 <= i < j < |xs| :: xs[i] != xs[j]
  }

  lemma {:induction false} WithoutAbsent(xs: seq<string>, self: string)
    requires self !in xs
    ensures Without(xs, self) == xs
  {
    if xs != [] {
      assert xs[0] in xs;
      WithoutAbsent(xs[1..], self);
      assert xs == [xs[0]] + xs[1..];
    }
  }

  lemma RotationOfDistinct(all: seq<string>, i: nat)
    requires AllDistinct(all) && i < |all|
    ensures Rotation(all, all[i]) == all[i + 1..] + all[..i]
  {
    assert FirstIndex(all, all[i]) == i;
    WithoutAbsent(all[i + 1..], all[i]);
  }

  /** m mod n for m < 2n. */
  function Wrap(m: nat, n: nat): nat {
    if m < n then m else m - n
  }

  /** The k-th fallback of the i-th stack is the (i+k)-th, cyclically. */
  lemma KthFallback(all: seq<string>, i: nat, k: nat)
    requires AllDistinct(all) && i < |all| && 1 <= k < |all|
    ensures |Rotation(all, all[i])| == |all| - 1
    ensures Rotation(all, all[i])[k - 1] == all[Wrap(i + k, |all|)]
  {
    RotationOfDistinct(all, i);
  }

  /** For each k the k-th fallback is a permutation of the stacks: no two stacks share it, ... */
  lemma KthFallbackInjective(all: seq<string>, i: nat, j: nat, k: nat)
    requires AllDistinct(all) && i < j < |all| && 1 <= k < |all|
    ensures |Rotation(all, all[i])| == |Rotation(all, all[j])| == |all| - 1
    ensures Rotation(all, all[i])[k - 1] != Rotation(all, all[j])[k - 1]
  {
    hide Rotation;
    KthFallback(all, i, k);
    KthFallback(all, j, k);
    var x, y := Wrap(i + k, |all|), Wrap(j + k, |all|);
    assert x < y || y < x;
  }

  /** ... and every stack is somebody's, so overflow never converges on one of them. */
  lemma KthFallbackOnto(all: seq<string>, j: nat, k: nat) returns (i: nat)
    requires AllDistinct(all) && j < |all| && 1 <= k < |all|
    ensures i < |all| && |Rotation(all, all[i])| == |all| - 1
    ensures Rotation(all, all[i])[k - 1] == all[j]
  {
    hide Rotation;
    i := if j >= k then j - k else j - k + |all|;
    KthFallback(all, i, k);
  }
}
