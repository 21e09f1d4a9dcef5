/** Runner ids: 32 lower-case hex digits, compared as both stores compare them. */
module Ids {

  const ID_LENGTH: nat := 32

  /** The last id in their order. */
  const LAST_ID := "ffffffffffffffffffffffffffffffff"

  predicate Less(a: string, b: string) {
    b != "" && (a == "" || a[0] < b[0] || (a[0] == b[0] && Less(a[1..], b[1..])))
  }

  lemma {:induction false} LessTransitive(a: string, b: string, c: string)
    requires Less(a, b) && Less(b, c)
    ensures Less(a, c)
  {
    if a != "" && a[0] == b[0] == c[0] {
      LessTransitive(a[1..], b[1..], c[1..]);
    }
  }

  lemma {:induction false} LessAsymmetric(a: string, b: string)
    requires Less(a, b)
    ensures !Less(b, a) && a != b
  {
    if a != "" && a[0] == b[0] {
      LessAsymmetric(a[1..], b[1..]);
    }
  }

  lemma {:induction false} LessIrreflexive(a: string)
    ensures !Less(a, a)
  {
    if a != "" { LessIrreflexive(a[1..]); }
  }

  lemma {:induction false} LessTotal(a: string, b: string)
    ensures Less(a, b) || Less(b, a) || a == b
  {
    if a != "" && b != "" && a[0] == b[0] {
      LessTotal(a[1..], b[1..]);
      assert a == [a[0]] + a[1..] && b == [b[0]] + b[1..];
    }
  }

  predicate IsLeast(m: string, ids: set<string>) {
    m in ids && forall x | x in ids :: x == m || Less(m, x)
  }

  lemma {:induction false} LeastExists(ids: set<string>) returns (m: string)
    requires ids != {}
    ensures IsLeast(m, ids)
  {
    m :| m in ids;
    var rest := ids - {m};
    assert ids == rest + {m};
    if rest != {} {
      var n := LeastExists(rest);
      LessTotal(m, n);
      if Less(m, n) {
        forall x | x in ids ensures x == m || Less(m, x) {
          if x != m && x != n { LessTransitive(m, n, x); }
        }
      } else {
        m := n;
      }
    }
  }

  lemma LeastUnique(m: string, n: string, ids: set<string>)
    requires IsLeast(m, ids) && IsLeast(n, ids)
    ensures m == n
  {
    if m != n { LessAsymmetric(m, n); }
  }

  function Least(ids: set<string>): (m: string)
    requires ids != {}
    ensures IsLeast(m, ids)
  {
    assert exists m :: m in ids && IsLeast(m, ids) by {
      var m := LeastExists(ids);
    }
    assert forall a, b | IsLeast(a, ids) && IsLeast(b, ids) :: a == b by {
      forall a, b | IsLeast(a, ids) && IsLeast(b, ids) ensures a == b { LeastUnique(a, b, ids); }
    }
    var m :| m in ids && IsLeast(m, ids);
    m
  }

  ghost predicate Ascending(ids: seq<string>) {
    forall i, j | 0 <= i < j < |ids| :: Less(ids[i], ids[j])
  }

  /** The first `limit` members of `ids` in ascending order: one page of a range query. */
  function Smallest(ids: set<string>, limit: nat): (page: seq<string>)
    ensures |page| <= limit && Ascending(page)
    ensures forall x | x in page :: x in ids
    ensures forall x | x in ids && x !in page :: |page| == limit && forall y | y in page :: Less(y, x)
    decreases limit
  {
    if limit == 0 || ids == {} then []
    else
      var m := Least(ids);
      var rest := Smallest(ids - {m}, limit - 1);
      assert forall j | 0 <= j < |rest| :: rest[j] in ids - {m};
      [m] + rest
  }

  // ---- the 32-digit shape, and why a strictly rising cursor must stop ----

  predicate IsHexDigit(c: char) {
    '0' <= c <= '9' || 'a' <= c <= 'f'
  }

  predicate IsHex(s: string) {
    forall c | c in s :: IsHexDigit(c)
  }

  predicate ValidRunnerId(id: string) {
    |id| == ID_LENGTH && IsHex(id)
  }

  lemma LastIsId()
    ensures ValidRunnerId(LAST_ID)
  {
  }

  function HexValue(c: char): (v: nat)
    requires IsHexDigit(c)
    ensures v < 16
  {
    if c <= '9' then c as int - '0' as int else c as int - 'a' as int + 10
  }

  function Pow16(n: nat): (p: nat)
    ensures p >= 1
  {
    if n == 0 then 1 else 16 * Pow16(n - 1)
  }

  lemma {:induction false} Scale(x: nat, y: nat, p: nat)
    requires x < y
    ensures x * p + p <= y * p
  {
    assert y * p == (y - 1) * p + p;
    if x < y - 1 { Scale(x, y - 1, p); }
  }

  function Rank(s: string): (r: nat)
    requires IsHex(s)
    ensures r < Pow16(|s|)
  {
    if s == "" then 0
    else
      assert IsHex(s[1..]);
      Scale(HexValue(s[0]), 16, Pow16(|s| - 1));
      HexValue(s[0]) * Pow16(|s| - 1) + Rank(s[1..])
  }

  /** On ids of one length the string order is the numeric order. */
  lemma {:induction false} RankMonotone(a: string, b: string)
    requires IsHex(a) && IsHex(b) && |a| == |b| && Less(a, b)
    ensures Rank(a) < Rank(b)
  {
    assert IsHex(a[1..]) && IsHex(b[1..]);
    if a[0] == b[0] {
      RankMonotone(a[1..], b[1..]);
    } else {
      Scale(HexValue(a[0]), HexValue(b[0]), Pow16(|a| - 1));
    }
  }

  /** How many ids can still follow a scan cursor; the termination measure of every scan. */
  function Headroom(cursor: string): nat {
    if ValidRunnerId(cursor) then Pow16(ID_LENGTH) - Rank(cursor) else Pow16(ID_LENGTH) + 1
  }

  lemma HeadroomShrinks(cursor: string, next: string)
    requires ValidRunnerId(next) && (ValidRunnerId(cursor) ==> Less(cursor, next))
    ensures Headroom(next) < Headroom(cursor)
  {
    if ValidRunnerId(cursor) { RankMonotone(cursor, next); }
  }
}
