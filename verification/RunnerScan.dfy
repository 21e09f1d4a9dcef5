/** Scanning the table for an idle runner, page by page, as both stores do. */
module RunnerScan {
  import opened Text
  import opened Ids
  import opened RunnerTable
  import opened RunnerHistory

  const ACQUIRE_QUERY_LIMIT: nat := 5

  /** The runner a scan from `start` must find: the least idle id above `start`, else the least of all. */
  function Pick(t: Table, start: string): Option<string> {
    var above := set id | id in t && t[id].Idle? && Less(start, id);
    if above != {} then Some(Least(above))
    else if IdleIds(t) != {} then Some(Least(IdleIds(t)))
    else None
  }

  /** Whether the scan finds its runner above the start, without wrapping around. */
  predicate Direct(t: Table, start: string) {
    Pick(t, start).Some? && Less(start, Pick(t, start).value)
  }

  /** The two key ranges of a scan; `start` itself belongs to the second. */
  datatype Segment = Above | UpTo

  predicate InSegment(segment: Segment, start: string, id: string) {
    match segment
    case Above => Less(start, id)
    case UpTo => !Less(start, id)
  }

  lemma PickAbove(t: Table, start: string, id: string)
    requires IsIdle(t, id) && Less(start, id)
    requires forall x | IsIdle(t, x) && Less(start, x) :: !Less(x, id)
    ensures Pick(t, start) == Some(id)
  {
    var above := set x | x in t && t[x].Idle? && Less(start, x);
    assert id in above;
    var m := Least(above);
    assert IsIdle(t, m);
    assert id == m || Less(m, id);
  }

  lemma PickWrapped(t: Table, start: string, id: string)
    requires IsIdle(t, id)
    requires forall x | IsIdle(t, x) :: !Less(start, x) && !Less(x, id)
    ensures Pick(t, start) == Some(id)
  {
    var above := set x | x in t && t[x].Idle? && Less(start, x);
    assert above == {} by {
      if x :| x in above { assert IsIdle(t, x); assert false; }
    }
    assert id in IdleIds(t);
    var m := Least(IdleIds(t));
    assert IsIdle(t, m);
    assert id == m || Less(m, id);
  }

  /** Operations of brokers never produce an unreadable record. */
  ghost predicate NoNewMalformed(t: Table, t': Table) {
    forall id | id in t' && t'[id].Malformed? :: id in t && t[id].Malformed?
  }

  lemma NoNewMalformedChain(t: Table, t': Table, t'': Table)
    ensures NoNewMalformed(t, t)
    ensures NoNewMalformed(t, t') && NoNewMalformed(t', t'') ==> NoNewMalformed(t, t'')
  {
  }

  // ---- what a call saw ----

  /** At some moment from `since` on, `id` was not an idle runner. */
  ghost predicate SawUnavailable(history: seq<Table>, since: nat, id: string) {
    exists k :: since <= k < |history| && !IsIdle(history[k], id)
  }

  lemma SawNow(history: seq<Table>, since: nat, id: string)
    requires since < |history| && !IsIdle(history[|history| - 1], id)
    ensures SawUnavailable(history, since, id)
  {
  }

  lemma SawGrows(h: seq<Table>, h': seq<Table>, since: nat, id: string)
    requires h <= h' && SawUnavailable(h, since, id)
    ensures SawUnavailable(h', since, id)
  {
    var k :| since <= k < |h| && !IsIdle(h[k], id);
    assert h'[k] == h[k];
  }

  ghost predicate Distinct(s: seq<string>) {
    forall i, j | 0 <= i < j < |s| :: s[i] != s[j]
  }

  /** No attempt from `first` on was repeated, and all of them are remembered. */
  ghost predicate TriedOnce(attempts: seq<string>, first: nat, tried: seq<string>) {
    && first <= |attempts| && Distinct(attempts[first..])
    && forall id | id in attempts[first..] :: id in tried
  }

  lemma OneMoreTry(attempts: seq<string>, first: nat, tried: seq<string>, id: string)
    requires TriedOnce(attempts, first, tried) && id !in tried
    ensures TriedOnce(attempts + [id], first, tried + [id])
    ensures first <= |attempts| && Distinct((attempts + [id])[first..])
  {
    assert (attempts + [id])[first..] == attempts[first..] + [id];
  }

  lemma TriesDistinct(attempts: seq<string>, first: nat, tried: seq<string>)
    requires TriedOnce(attempts, first, tried)
    ensures first <= |attempts| && Distinct(attempts[first..])
    ensures forall id :: TriedOnce(attempts, first, tried + [id])
  {
  }

  datatype AssignOutcome = Assigned | ConditionFailed | AssignError

  /** `ids` is one page of the idle runners of `t` in the segment beyond `after`; `next` continues it. */
  ghost predicate IsPage(t: Table, segment: Segment, start: string, after: Option<string>,
                         ids: seq<string>, next: Option<string>)
  {
    && Ascending(ids)
    && (forall id | id in ids :: id in t && InSegment(segment, start, id) && (after.Some? ==> Less(after.value, id)))
    && (next.Some? ==> ids != [] && next.value == ids[|ids| - 1])
    && (forall id | IsIdle(t, id) && InSegment(segment, start, id) && (after.Some? ==> Less(after.value, id))
        && id !in ids ::
          next.Some? && forall y | y in ids :: Less(y, id))
  }

  /** Where the server continues: after a full page, at its last key. */
  function NextKey(ids: seq<string>, limit: nat): Option<string> {
    if |ids| == limit && ids != [] then Some(ids[|ids| - 1]) else None
  }

  lemma SmallestIsPage(t: Table, segment: Segment, start: string, after: Option<string>, range: set<string>, limit: nat)
    requires limit > 0
    requires forall id | id in range ::
        id in t && InSegment(segment, start, id) && (after.Some? ==> Less(after.value, id))
    requires forall id | IsIdle(t, id) && InSegment(segment, start, id) && (after.Some? ==> Less(after.value, id)) ::
        id in range
    ensures IsPage(t, segment, start, after, Smallest(range, limit), NextKey(Smallest(range, limit), limit))
  {
  }

  /** Everything of the segment up to and including the cursor was unavailable at some moment. */
  ghost predicate Covered(history: seq<Table>, since: nat, segment: Segment, start: string, cursor: Option<string>) {
    cursor.Some? ==>
      forall id | InSegment(segment, start, id) && !Less(cursor.value, id) :: SawUnavailable(history, since, id)
  }

  /** A continued scan has moved: that is why it ends. */
  lemma PageAdvances(t: Table, segment: Segment, start: string, after: Option<string>,
                     ids: seq<string>, next: Option<string>)
    requires IsPage(t, segment, start, after, ids, next) && next.Some? && ValidRunnerId(next.value)
    ensures after.Some? ==> Headroom(next.value) < Headroom(after.value)
    ensures Headroom(next.value) <= Pow16(ID_LENGTH)
  {
    assert next.value in ids;
    if after.Some? { HeadroomShrinks(after.value, next.value); }
  }

  lemma PageInSegment(t: Table, segment: Segment, start: string, after: Option<string>,
                      ids: seq<string>, next: Option<string>, i: nat)
    requires IsPage(t, segment, start, after, ids, next) && i < |ids|
    ensures InSegment(segment, start, ids[i])
  {
    assert ids[i] in ids;
  }

  lemma NothingCovered(history: seq<Table>, since: nat, segment: Segment, start: string)
    ensures Covered(history, since, segment, start, None)
  {
  }

  ghost predicate AllUnavailable(history: seq<Table>, since: nat, ids: seq<string>) {
    forall id | id in ids :: SawUnavailable(history, since, id)
  }

  lemma NoneUnavailable(history: seq<Table>, since: nat, ids: seq<string>)
    requires ids == []
    ensures AllUnavailable(history, since, ids)
  {
  }

  lemma OneMoreUnavailable(history: seq<Table>, since: nat, ids: seq<string>, i: nat, tried: seq<string>)
    requires i < |ids| && AllUnavailable(history, since, ids[..i]) && AllUnavailable(history, since, tried)
    requires ids[i] in tried || SawUnavailable(history, since, ids[i])
    ensures AllUnavailable(history, since, ids[..i + 1]) && AllUnavailable(history, since, tried + [ids[i]])
  {
    assert ids[..i + 1] == ids[..i] + [ids[i]];
  }

  lemma OneMoreTried(history: seq<Table>, since: nat, tried: seq<string>, id: string)
    requires AllUnavailable(history, since, tried) && SawUnavailable(history, since, id)
    ensures AllUnavailable(history, since, tried + [id])
  {
  }

  ghost predicate SegmentUnavailable(history: seq<Table>, since: nat, segment: Segment, start: string) {
    forall id | InSegment(segment, start, id) :: SawUnavailable(history, since, id)
  }

  /** Once every candidate of a page was refused, every runner the page passes over was unavailable. */
  lemma PageCovers(h: seq<Table>, history: seq<Table>, since: nat, segment: Segment, start: string,
                   after: Option<string>, ids: seq<string>, next: Option<string>)
    requires since < |h| && h <= history && IsPage(h[|h| - 1], segment, start, after, ids, next)
    requires AllUnavailable(history, since, ids) && Covered(h, since, segment, start, after)
    ensures next.Some? ==> Covered(history, since, segment, start, next)
    ensures next.None? ==> SegmentUnavailable(history, since, segment, start)
  {
    Grow(h, history, since, segment, start, after);
    assert history[|h| - 1] == h[|h| - 1];
    forall id | InSegment(segment, start, id) && (next.Some? ==> !Less(next.value, id))
      ensures SawUnavailable(history, since, id)
    {
      assert next.Some? ==> next.value in ids;
      if (after.None? || Less(after.value, id)) && id !in ids {
        assert !IsIdle(history[|h| - 1], id);
      }
    }
  }

  /** Some moment of the call showed `id` idle at `host`. */
  ghost predicate Offered(history: seq<Table>, since: nat, id: string, host: string) {
    exists k :: since <= k < |history| && id in history[k] && history[k][id] == Idle(host)
  }

  function Keys(runners: seq<Runner>): (ids: seq<string>)
    ensures |ids| == |runners| && forall i | 0 <= i < |ids| :: ids[i] == runners[i].runnerId
  {
    seq(|runners|, i requires 0 <= i < |runners| => runners[i].runnerId)
  }

  ghost predicate Offers(t: Table, runners: seq<Runner>) {
    forall c | c in runners :: c.runnerId in t && t[c.runnerId] == Idle(c.privateHost)
  }

  lemma OfferNow(history: seq<Table>, since: nat, runners: seq<Runner>)
    requires since < |history| && Offers(history[|history| - 1], runners)
    ensures forall c | c in runners :: Offered(history, since, c.runnerId, c.privateHost)
  {
  }

  lemma OfferStands(h: seq<Table>, h': seq<Table>, since: nat, id: string, host: string)
    requires h <= h' && Offered(h, since, id, host)
    ensures Offered(h', since, id, host)
  {
    var k :| since <= k < |h| && id in h[k] && h[k][id] == Idle(host);
    assert h'[k] == h[k];
  }

  /** The runner was idle when the last request reached the store and is busy with the session after it. */
  ghost predicate Granted(history: seq<Table>, since: nat, r: Runner, session: string, after: Table) {
    && since < |history|
    && r.state == StateBusy && r.currentSessionId == session
    && IsIdle(history[|history| - 1], r.runnerId)
    && after == Apply(history[|history| - 1], Assign(r.runnerId, session))
    && Offered(history, since, r.runnerId, r.privateHost)
  }

  /**
   When the host an acquire returns is the record's: it was read at request `k`, and it stands at the assignment
   exactly when nobody deleted the record since, or the last registration since has that host.
   */
  ghost predicate HostReadAt(history: seq<Table>, others: nat -> seq<Op>, r: Runner, k: nat) {
    && k < |history| && r.runnerId in history[k] && history[k][r.runnerId] == Idle(r.privateHost)
    && IsIdle(history[|history| - 1], r.runnerId)
    && var ops := Landed(others, k + 1, |history|);
    && (history[|history| - 1][r.runnerId].host == r.privateHost
        <==> !Removed(history[k], ops, r.runnerId) || Registered(history[k], ops, r.runnerId) == Some(r.privateHost))
  }

  /** The host was read at some request from `since` on, and stands at the assignment exactly under that condition. */
  ghost predicate HostRead(history: seq<Table>, others: nat -> seq<Op>, since: nat, r: Runner) {
    exists k :: since <= k && HostReadAt(history, others, r, k)
  }

  lemma GrantedHost(history: seq<Table>, others: nat -> seq<Op>, since: nat, t: Table, r: Runner, session: string,
                    after: Table)
    requires Granted(history, since, r, session, after) && Follows(history, others, since, t)
    ensures HostRead(history, others, since, r)
  {
    var k :| since <= k < |history| && r.runnerId in history[k] && history[k][r.runnerId] == Idle(r.privateHost);
    LandedBetween(history, others, since, t, k, |history| - 1);
    HostStands(history[k], Landed(others, k + 1, |history|), r.runnerId);
    assert HostReadAt(history, others, r, k);
  }

  // ---- the answer of an undisturbed scan ----

  function AcquireResult(t: Table, start: string, session: string): Result<Runner> {
    match Pick(t, start)
    case None => Failure(ErrNoIdleRunner)
    case Some(id) => Success(Runner(id, StateBusy, session, t[id].host))
  }

  function AcquireTable(t: Table, start: string, session: string): Table {
    match Pick(t, start)
    case None => t
    case Some(id) => Apply(t, Assign(id, session))
  }

  /** Every moment of the call showed the same table. */
  ghost predicate Still(history: seq<Table>, since: nat, t: Table) {
    forall k | since <= k < |history| :: history[k] == t
  }

  /** A granted candidate whose predecessors in scan order were all unavailable is the one `Pick` names. */
  lemma GrantIsPick(t: Table, h: seq<Table>, history: seq<Table>, since: nat, segment: Segment, start: string,
                    after: Option<string>, ids: seq<string>, next: Option<string>, i: nat)
    requires Still(history, since, t) && since < |h| && h <= history
    requires IsPage(h[|h| - 1], segment, start, after, ids, next)
    requires i < |ids| && IsIdle(history[|history| - 1], ids[i])
    requires AllUnavailable(history, since, ids[..i])
    requires SegmentUnavailable(h, since, Above, start) || segment == Above
    requires Covered(h, since, segment, start, after)
    ensures Pick(t, start) == Some(ids[i])
  {
    forall x | IsIdle(t, x) ensures !SawUnavailable(history, since, x) {}
    Grow(h, history, since, segment, start, after);
    assert history[|h| - 1] == t && history[|history| - 1] == t;
    assert ids[i] in ids;
    forall j | 0 <= j < i ensures !IsIdle(t, ids[j]) {
      assert ids[..i][j] in ids[..i];
    }
    forall x | IsIdle(t, x) && InSegment(segment, start, x) ensures !Less(x, ids[i]) {
      if x in ids {
        var j :| 0 <= j < |ids| && ids[j] == x;
        if j > i { LessAsymmetric(ids[i], x); } else { LessIrreflexive(ids[i]); }
      } else {
        LessAsymmetric(ids[i], x);
      }
    }
    forall x | segment == UpTo && Less(start, x) ensures !IsIdle(t, x) {
      assert InSegment(Above, start, x);
    }
    if segment == Above { PickAbove(t, start, ids[i]); } else { PickWrapped(t, start, ids[i]); }
  }

  /** What a longer history shows: everything the shorter one did. */
  lemma Grow(h: seq<Table>, h': seq<Table>, since: nat, segment: Segment, start: string, cursor: Option<string>)
    requires h <= h'
    ensures forall xs :: AllUnavailable(h, since, xs) ==> AllUnavailable(h', since, xs)
    ensures Covered(h, since, segment, start, cursor) ==> Covered(h', since, segment, start, cursor)
    ensures SegmentUnavailable(h, since, segment, start) ==> SegmentUnavailable(h', since, segment, start)
    ensures SegmentUnavailable(h, since, Above, start) ==> SegmentUnavailable(h', since, Above, start)
  {
    forall id | SawUnavailable(h, since, id) ensures SawUnavailable(h', since, id) {
      SawGrows(h, h', since, id);
    }
  }

  lemma GrantTable(t: Table, history: seq<Table>, since: nat, start: string, session: string, r: Runner, after: Table)
    requires Still(history, since, t) && Granted(history, since, r, session, after)
    requires Pick(t, start) == Some(r.runnerId)
    ensures AcquireResult(t, start, session) == Success(r) && AcquireTable(t, start, session) == after
  {
    assert history[|history| - 1] == t;
    var k :| since <= k < |history| && r.runnerId in history[k] && history[k][r.runnerId] == Idle(r.privateHost);
    assert history[k] == t;
  }

  lemma NotDirect(t: Table, history: seq<Table>, since: nat, start: string)
    requires Still(history, since, t) && SegmentUnavailable(history, since, Above, start)
    ensures !Direct(t, start)
  {
    forall id | Less(start, id) ensures !IsIdle(t, id) {
      assert InSegment(Above, start, id);
      assert SawUnavailable(history, since, id);
    }
    if Pick(t, start).Some? { PickIdle(t, start); }
  }

  lemma PickIdle(t: Table, start: string)
    requires Pick(t, start).Some?
    ensures IsIdle(t, Pick(t, start).value)
  {
  }

  lemma NothingToPick(t: Table, history: seq<Table>, since: nat, start: string)
    requires Still(history, since, t)
    requires SegmentUnavailable(history, since, Above, start) && SegmentUnavailable(history, since, UpTo, start)
    ensures Pick(t, start) == None
  {
    forall id ensures !IsIdle(t, id) {
      assert InSegment(if Less(start, id) then Above else UpTo, start, id);
      assert SawUnavailable(history, since, id);
    }
    assert forall id | id in IdleIds(t) :: IsIdle(t, id);
    assert forall id | id in t && t[id].Idle? :: IsIdle(t, id);
  }
}
