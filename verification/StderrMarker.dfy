/** Finding the marker in stderr, whichever way the stream is cut into chunks. */
module StderrMarker {
  import opened Text
  import opened LineScan

  predicate OccursAt(s: string, m: string, i: nat) {
    i + |m| <= |s| && s[i..i + |m|] == m
  }

  function IndexFrom(s: string, m: string, i: nat): (r: Option<nat>)
    requires i <= |s|
    ensures r.Some? ==> i <= r.value && OccursAt(s, m, r.value) && forall j | i <= j < r.value :: !OccursAt(s, m, j)
    ensures r.None? ==> forall j: nat | i <= j :: !OccursAt(s, m, j)
    decreases |s| - i
  {
    if OccursAt(s, m, i) then Some(i) else if i == |s| then None else IndexFrom(s, m, i + 1)
  }

  function SkipNewline(s: string): string {
    if s != "" && s[0] == NEWLINE then s[1..] else s
  }

  /** One read: the new buffer and the marker still waited for; the empty marker waits for nothing. */
  function Feed(buf: string, m: string, chunk: string): (string, string) {
    var content := buf + chunk;
    if m == "" then (content, m)
    else
      match IndexFrom(content, m, 0)
      case None => (content, m)
      case Some(i) => (content[..i] + SkipNewline(content[i + |m|..]), "")
  }

  function FeedAll(buf: string, m: string, chunks: seq<string>): (string, string)
    decreases |chunks|
  {
    if chunks == [] then (buf, m)
    else
      var (buf', m') := Feed(buf, m, chunks[0]);
      FeedAll(buf', m', chunks[1..])
  }

  /** In `e` followed by the marker, the marker first occurs right after `e`. */
  ghost predicate FirstAfter(e: string, m: string) {
    m != "" && NEWLINE !in m && forall i: nat | i < |e| :: !OccursAt(e + m, m, i)
  }

  lemma FirstOfPrefix(content: string, e: string, m: string, i: nat)
    requires FirstAfter(e, m) && content <= e + m + [NEWLINE] && OccursAt(content, m, i)
    ensures i >= |e|
  {
    var whole := e + m + [NEWLINE];
    assert content == whole[..|content|];
    assert content[i..i + |m|] == whole[i..i + |m|];
    assert i + |m| <= |e + m| ==> (e + m)[i..i + |m|] == whole[i..i + |m|];
    assert OccursAt(e + m, m, i) <==> i + |m| <= |e + m|;
  }

  /**
   One more chunk of `e`, the marker and a newline: nothing happens until the marker is complete; then the buffer is
   exactly `e`, and what is still to come is the newline or nothing.
   */
  lemma FeedStep(buf: string, chunk: string, rest: string, e: string, m: string)
    requires FirstAfter(e, m) && buf + chunk + rest == e + m + [NEWLINE]
    ensures if |buf + chunk| < |e| + |m|
            then Feed(buf, m, chunk) == (buf + chunk, m)
            else Feed(buf, m, chunk) == (e, "") && rest == if |buf + chunk| == |e| + |m| then [NEWLINE] else ""
  {
    var content := buf + chunk;
    var whole := e + m + [NEWLINE];
    assert content == whole[..|content|] && rest == whole[|content|..];
    var found := IndexFrom(content, m, 0);
    if found.Some? { FirstOfPrefix(content, e, m, found.value); }
    if |content| >= |e| + |m| {
      assert whole[|e|..|e| + |m|] == m;
      assert OccursAt(content, m, |e|);
      assert found == Some(|e|);
      assert content[..|e|] + "" == e;
      assert content[|e| + |m|..] == whole[|e| + |m|..|content|] == if |content| == |e| + |m| then "" else [NEWLINE];
      assert SkipNewline(content[|e| + |m|..]) == "";
    }
  }

  /** Once the marker is found nothing is looked for any more. */
  lemma {:induction false} FeedAfter(buf: string, chunks: seq<string>)
    ensures FeedAll(buf, "", chunks) == (buf + Concat(chunks), "")
    decreases |chunks|
  {
    if chunks == [] {
      assert buf + "" == buf;
    } else {
      FeedAfter(buf + chunks[0], chunks[1..]);
      assert buf + chunks[0] + Concat(chunks[1..]) == buf + (chunks[0] + Concat(chunks[1..]));
    }
  }

  /**
   Over all chunks: exactly `e` is left exactly when no chunk ends between the marker and its newline; otherwise the
   newline stays behind.
   */
  lemma {:induction false} DetectFrom(buf: string, chunks: seq<string>, e: string, m: string)
    requires FirstAfter(e, m) && buf + Concat(chunks) == e + m + [NEWLINE] && |buf| < |e| + |m|
    ensures FeedAll(buf, m, chunks) ==
              (if exists k | 0 <= k <= |chunks| :: buf + Concat(chunks[..k]) == e + m then e + [NEWLINE] else e, "")
    decreases |chunks|
  {
    hide Feed, FirstAfter;
    assert buf + "" == buf;
    var (chunk, rest) := (chunks[0], chunks[1..]);
    assert buf + Concat(chunks) == buf + chunk + Concat(rest);
    FeedStep(buf, chunk, Concat(rest), e, m);
    TakeConcat(buf, chunks);
    if |buf + chunk| < |e| + |m| {
      DetectFrom(buf + chunk, rest, e, m);
      if k :| 0 <= k <= |rest| && buf + chunk + Concat(rest[..k]) == e + m {
        assert buf + Concat(chunks[..k + 1]) == e + m;
      }
    } else {
      FeedAfter(e, rest);
      assert rest[..0] == [] && buf + chunk + "" == buf + chunk;
      if |buf + chunk| == |e| + |m| {
        assert buf + chunk == (e + m + [NEWLINE])[..|e| + |m|] == e + m;
        assert buf + Concat(chunks[..1]) == e + m;
      } else {
        assert e + "" == e;
      }
    }
  }

  lemma TakeConcat(buf: string, chunks: seq<string>)
    requires chunks != []
    ensures forall k | 1 <= k <= |chunks| :: buf + Concat(chunks[..k]) == buf + chunks[0] + Concat(chunks[1..][..k - 1])
    ensures buf + Concat(chunks[..0]) == buf
  {
    forall k | 1 <= k <= |chunks| ensures buf + Concat(chunks[..k]) == buf + chunks[0] + Concat(chunks[1..][..k - 1]) {
      assert chunks[..k][1..] == chunks[1..][..k - 1];
    }
  }

  /** For every chunking of stderr followed by marker and newline. */
  lemma Detect(chunks: seq<string>, e: string, m: string)
    requires FirstAfter(e, m) && Concat(chunks) == e + m + [NEWLINE]
    ensures FeedAll("", m, chunks) ==
              (if exists k | 0 <= k <= |chunks| :: Concat(chunks[..k]) == e + m then e + [NEWLINE] else e, "")
  {
    assert "" + Concat(chunks) == Concat(chunks);
    DetectFrom("", chunks, e, m);
    assert forall k | 0 <= k <= |chunks| :: "" + Concat(chunks[..k]) == Concat(chunks[..k]);
  }

  /** A newline left over from the command before does not hide or forge a marker. */
  lemma FirstAfterNewline(e: string, m: string)
    requires FirstAfter(e, m)
    ensures FirstAfter([NEWLINE] + e, m)
  {
    var s := [NEWLINE] + e + m;
    assert s[1..] == e + m && m[0] in m;
    forall i: nat | i < |e| + 1 ensures !OccursAt(s, m, i) {
      if i + |m| <= |s| {
        assert s[i..i + |m|][0] == s[i];
        if i > 0 {
          assert (e + m)[i - 1..i - 1 + |m|] == s[i..i + |m|];
          assert !OccursAt(e + m, m, i - 1);
        }
      }
    }
  }

  // ---- waiting for the marker ----

  /** Reads until the marker is found or nothing is left: the buffer, the marker still waited for, what is unread. */
  function Await(buf: string, m: string, chunks: seq<string>): (string, string, seq<string>)
    decreases |chunks|
  {
    if m == "" || chunks == [] then (buf, m, chunks)
    else
      var (buf', m') := Feed(buf, m, chunks[0]);
      Await(buf', m', chunks[1..])
  }

  /** The wait ends whenever the marker is anywhere in the bytes, whatever stands around it. */
  lemma {:induction false} AwaitFires(buf: string, m: string, chunks: seq<string>, i: nat)
    requires m != "" && OccursAt(buf + Concat(chunks), m, i)
    requires forall j: nat :: !OccursAt(buf, m, j)
    ensures Await(buf, m, chunks).1 == ""
    decreases |chunks|
  {
    assert buf + "" == buf;
    assert chunks != [];
    var content := buf + chunks[0];
    assert buf + Concat(chunks) == content + Concat(chunks[1..]);
    if IndexFrom(content, m, 0).None? {
      AwaitFires(content, m, chunks[1..], i);
    } else {
      assert Feed(buf, m, chunks[0]).1 == "";
    }
  }

  /** The number of chunks it takes to get `n` characters. */
  function Covering(chunks: seq<string>, n: nat): (k: nat)
    ensures k <= |chunks|
    decreases |chunks|
  {
    if n == 0 || chunks == [] then 0
    else if |chunks[0]| >= n then 1
    else 1 + Covering(chunks[1..], n - |chunks[0]|)
  }

  lemma {:induction false} CoveringCovers(chunks: seq<string>, n: nat)
    requires |Concat(chunks)| >= n
    ensures |Concat(chunks[..Covering(chunks, n)])| >= n
    ensures forall j | 0 <= j < Covering(chunks, n) :: |Concat(chunks[..j])| < n
    decreases |chunks|
  {
    var k := Covering(chunks, n);
    if n > 0 && chunks != [] {
      assert forall j | 1 <= j <= |chunks| :: chunks[..j][1..] == chunks[1..][..j - 1];
      if |chunks[0]| < n { CoveringCovers(chunks[1..], n - |chunks[0]|); }
    }
  }

  /**
   For stderr `e`, the marker and a newline, the wait reads exactly the chunks it takes to complete the marker, the
   buffer is then `e`, and the newline is still to come exactly when those chunks end with the marker.
   */
  lemma {:induction false} AwaitFrom(buf: string, m: string, chunks: seq<string>, e: string)
    requires FirstAfter(e, m) && buf + Concat(chunks) == e + m + [NEWLINE] && |buf| < |e| + |m|
    ensures var k := Covering(chunks, |e| + |m| - |buf|);
            && Await(buf, m, chunks) == (e, "", chunks[k..])
            && Concat(chunks[k..]) == if |buf| + |Concat(chunks[..k])| == |e| + |m| then [NEWLINE] else ""
    decreases |chunks|
  {
    hide Feed, FirstAfter;
    assert buf + "" == buf;
    assert chunks != [] && m != "" by { MarkerIsText(e, m); }
    var (chunk, rest) := (chunks[0], chunks[1..]);
    assert buf + Concat(chunks) == buf + chunk + Concat(rest);
    FeedStep(buf, chunk, Concat(rest), e, m);
    var k := Covering(chunks, |e| + |m| - |buf|);
    assert k >= 1 && chunks[k..] == rest[k - 1..] && chunks[..k][1..] == rest[..k - 1];
    if |buf + chunk| < |e| + |m| {
      AwaitFrom(buf + chunk, m, rest, e);
    } else {
      assert chunks[..1][1..] == [] && rest[0..] == rest;
    }
  }

  lemma MarkerIsText(e: string, m: string)
    requires FirstAfter(e, m)
    ensures m != ""
  {
  }

  /** Whether a wait for `n` characters and `late` reads after it take in the character that follows them. */
  predicate ReadsBeyond(chunks: seq<string>, n: nat, late: nat) {
    var k := Covering(chunks, n);
    |Concat(chunks[..k])| == n && |Concat(chunks[..if k + late < |chunks| then k + late else |chunks|])| > n
  }

  /** What is in the buffer after the wait and `late` more reads. */
  function Heard(m: string, chunks: seq<string>, late: nat): string {
    var (buf, _, rest) := Await("", m, chunks);
    buf + Concat(rest[..if late < |rest| then late else |rest|])
  }

  lemma HeardExactly(m: string, chunks: seq<string>, late: nat, e: string)
    requires FirstAfter(e, m) && Concat(chunks) == e + m + [NEWLINE]
    ensures Heard(m, chunks, late) == e + if ReadsBeyond(chunks, |e| + |m|, late) then [NEWLINE] else ""
  {
    hide Concat, Covering, Await, FirstAfter;
    MarkerIsText(e, m);
    var n := |e| + |m|;
    assert "" + Concat(chunks) == Concat(chunks);
    AwaitFrom("", m, chunks, e);
    var k := Covering(chunks, n);
    var rest := chunks[k..];
    var l := if late < |rest| then late else |rest|;
    assert (if k + late < |chunks| then k + late else |chunks|) == k + l;
    LateReads(chunks, k, l);
    assert Concat(rest[..l]) == if ReadsBeyond(chunks, n, late) then [NEWLINE] else "";
    assert e + "" == e;
  }

  lemma LateReads(chunks: seq<string>, k: nat, l: nat)
    requires k + l <= |chunks|
    ensures Concat(chunks[k..]) == Concat(chunks[k..][..l]) + Concat(chunks[k..][l..])
    ensures |Concat(chunks[..k + l])| == |Concat(chunks[..k])| + |Concat(chunks[k..][..l])|
  {
    hide Concat;
    var rest := chunks[k..];
    ConcatAppend(chunks[..k], rest[..l]);
    assert chunks[..k] + rest[..l] == chunks[..k + l];
    ConcatAppend(rest[..l], rest[l..]);
    assert rest[..l] + rest[l..] == rest;
  }
}
