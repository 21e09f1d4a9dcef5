/** The DynamoDB implementation: items with an explicit state, pages continued by the server's key. */
module DynamoStore {
  import opened Text
  import opened Ids
  import opened RunnerTable
  import opened RunnerHistory
  import opened RunnerScan

  function SlotOf(r: Runner): Slot {
    if r.state == StateIdle then Idle(r.privateHost) else Busy(r.privateHost, r.currentSessionId)
  }

  function TableOf(items: map<string, Runner>): Table {
    map id | id in items :: SlotOf(items[id])
  }

  /** The effect of one conditional request on the stored items. */
  function ApplyItems(items: map<string, Runner>, op: Op): map<string, Runner> {
    match op
    case Put(id, host) =>
      if ValidRunnerId(id) && host != "" && id !in items
      then items[id := Runner(id, StateIdle, "", host)] else items
    case Assign(id, session) =>
      if id in items && items[id].state == StateIdle
      then items[id := items[id].(state := StateBusy, currentSessionId := session)] else items
    case Remove(id) => items - {id}
  }

  predicate WellKeyed(items: map<string, Runner>) {
    forall id | id in items ::
      && ValidRunnerId(id) && items[id].runnerId == id
      && (items[id].currentSessionId != "" ==> items[id].state == StateBusy)
  }

  lemma ItemsRefineTable(items: map<string, Runner>, op: Op)
    requires WellKeyed(items)
    ensures WellKeyed(ApplyItems(items, op))
    ensures TableOf(ApplyItems(items, op)) == Apply(TableOf(items), op)
  {
    assert TableOf(ApplyItems(items, op)) == Apply(TableOf(items), op);
  }

  function ApplyAllItems(items: map<string, Runner>, ops: seq<Op>): (r: map<string, Runner>)
    requires WellKeyed(items)
    ensures WellKeyed(r) && TableOf(r) == ApplyAll(TableOf(items), ops)
    decreases ops
  {
    if ops == [] then items
    else
      ItemsRefineTable(items, ops[0]);
      ApplyAllItems(ApplyItems(items, ops[0]), ops[1..])
  }

  function InRange(items: map<string, Runner>, segment: Segment, start: string, after: Option<string>): set<string> {
    set id | id in items && items[id].state == StateIdle && InSegment(segment, start, id)
             && (after.Some? ==> Less(after.value, id))
  }

  /** The server answers with at most a page, and with the last key read when the page is full. */
  function QueryPage(items: map<string, Runner>, segment: Segment, start: string, after: Option<string>)
    : (seq<Runner>, Option<string>)
  {
    var ids := Smallest(InRange(items, segment, start, after), ACQUIRE_QUERY_LIMIT);
    assert forall i | 0 <= i < |ids| :: ids[i] in ids;
    (seq(|ids|, i requires 0 <= i < |ids| => items[ids[i]]),
     NextKey(ids, ACQUIRE_QUERY_LIMIT))
  }

  lemma QueryPageIsPage(items: map<string, Runner>, segment: Segment, start: string, after: Option<string>)
    requires WellKeyed(items)
    ensures var (page, next) := QueryPage(items, segment, start, after);
            && IsPage(TableOf(items), segment, start, after, Keys(page), next)
            && Offers(TableOf(items), page)
            && (next.Some? ==> ValidRunnerId(next.value) && page != [])
  {
    hide TableOf, SlotOf;
    var range := InRange(items, segment, start, after);
    var ids := Smallest(range, ACQUIRE_QUERY_LIMIT);
    var (page, next) := QueryPage(items, segment, start, after);
    assert forall i | 0 <= i < |ids| :: ids[i] in ids && ids[i] in range;
    assert Keys(page) == ids;
    IdleItems(items);
    SmallestIsPage(TableOf(items), segment, start, after, range, ACQUIRE_QUERY_LIMIT);
  }

  /** The table shows the items' states and hosts. */
  lemma IdleItems(items: map<string, Runner>)
    ensures TableOf(items).Keys == items.Keys
    ensures forall id | id in items :: IsIdle(TableOf(items), id) <==> items[id].state == StateIdle
    ensures forall id | id in items && items[id].state == StateIdle :: TableOf(items)[id] == Idle(items[id].privateHost)
  {
  }

  class DynamoRepository {
    var items: map<string, Runner>
    /** What other brokers get done just before this broker's n-th request. */
    const others: nat -> seq<Op>
    /** Whether the n-th request fails without effect. */
    const fault: nat -> bool
    /** The random scan start drawn before the n-th request. */
    const randHex: nat -> string
    var clock: nat
    /** The table as each request of this broker found it. */
    ghost var history: seq<Table>
    /** The runners this broker tried to assign, in order. */
    ghost var attempts: seq<string>

    ghost predicate Valid() reads this { WellKeyed(items) && clock == |history| }

    ghost function Contents(): Table reads this { TableOf(items) }

    /** No other broker acts. */
    ghost predicate Alone() { forall n :: others(n) == [] }

    constructor (others: nat -> seq<Op>, fault: nat -> bool, randHex: nat -> string)
      ensures Valid() && Contents() == map[] && history == [] && attempts == []
      ensures this.others == others && this.fault == fault && this.randHex == randHex
    {
      this.others, this.fault, this.randHex := others, fault, randHex;
      items, clock, history, attempts := map[], 0, [], [];
    }

    /** The others' requests that land first, then the moment this one reaches the table. */
    method Arrive() returns (ok: bool)
      requires Valid()
      modifies this`items, this`clock, this`history
      ensures Valid() && clock == old(clock) + 1
      ensures Contents() == ApplyAll(old(Contents()), others(old(clock)))
      ensures items == ApplyAllItems(old(items), others(old(clock)))
      ensures history == old(history) + [Contents()]
      ensures ok == !fault(old(clock))
      ensures Alone() ==> items == old(items)
    {
      items := ApplyAllItems(items, others(clock));
      ok := !fault(clock);
      clock := clock + 1;
      history := history + [Contents()];
    }

    method Register(runnerID: string, privateHost: string) returns (r: Result<()>)
      requires Valid()
      modifies this
      ensures Valid() && attempts == old(attempts)
      ensures !ValidRunnerId(runnerID) ==> r == Failure(ErrInvalidRunnerId) && unchanged(this)
      ensures ValidRunnerId(runnerID) && privateHost == "" ==> r == Failure(ErrInvalidPrivateHost) && unchanged(this)
      ensures ValidRunnerId(runnerID) && privateHost != "" ==>
                && |history| == |old(history)| + 1 && old(history) <= history
                && var seen := history[|history| - 1];
                && (r == Failure(ErrConflict) ==> runnerID in seen && Contents() == seen)
                && (r == Success(()) ==> runnerID !in seen && Contents() == seen[runnerID := Idle(privateHost)])
                && (r.Failure? && r.error != ErrConflict
                    ==> r.error == ErrBackend && fault(old(clock)) && Contents() == seen)
                && seen == ApplyAll(old(Contents()), others(old(clock)))
    {
      if !ValidRunnerId(runnerID) { return Failure(ErrInvalidRunnerId); }
      if privateHost == "" { return Failure(ErrInvalidPrivateHost); }
      var ok := Arrive();
      if !ok { return Failure(ErrBackend); }
      if runnerID in items { return Failure(ErrConflict); }
      ItemsRefineTable(items, Put(runnerID, privateHost));
      items := ApplyItems(items, Put(runnerID, privateHost));
      return Success(());
    }

    /** Deleting is unconditional and idempotent. */
    method Delete(runnerID: string) returns (r: Result<()>)
      requires Valid()
      modifies this
      ensures Valid() && attempts == old(attempts)
      ensures |history| == |old(history)| + 1 && old(history) <= history
      ensures r.Success? ==> Contents() == history[|history| - 1] - {runnerID}
      ensures r.Failure? ==> r.error == ErrBackend && Contents() == history[|history| - 1]
      ensures r.Failure? <==> fault(old(clock))
      ensures history[|history| - 1] == ApplyAll(old(Contents()), others(old(clock)))
    {
      var ok := Arrive();
      if !ok { return Failure(ErrBackend); }
      ItemsRefineTable(items, Remove(runnerID));
      items := ApplyItems(items, Remove(runnerID));
      return Success(());
    }

    /** One page of the idle partition of the state index, with the server's continuation key. */
    method QueryIdlePage(segment: Segment, start: string, exclusiveStart: Option<string>)
      returns (r: Result<(seq<Runner>, Option<string>)>)
      requires Valid()
      modifies this`items, this`clock, this`history
      ensures Valid() && |history| == |old(history)| + 1 && old(history) <= history
      ensures Contents() == history[|history| - 1] == ApplyAll(old(Contents()), others(old(clock)))
      ensures r.Failure? <==> fault(old(clock))
      ensures r.Failure? ==> r.error == ErrBackend
      ensures r.Success? ==>
                && IsPage(history[|history| - 1], segment, start, exclusiveStart, Keys(r.value.0), r.value.1)
                && Offers(history[|history| - 1], r.value.0)
                && (r.value.1.Some? ==> ValidRunnerId(r.value.1.value) && r.value.0 != [])
    {
      var ok := Arrive();
      if !ok { return Failure(ErrBackend); }
      QueryPageIsPage(items, segment, start, exclusiveStart);
      return Success(QueryPage(items, segment, start, exclusiveStart));
    }

    method AssignSession(runnerID: string, sessionID: string) returns (r: AssignOutcome)
      requires Valid()
      modifies this
      ensures Valid() && attempts == old(attempts) + [runnerID]
      ensures |history| == |old(history)| + 1 && old(history) <= history
      ensures r == Assigned ==> IsIdle(history[|history| - 1], runnerID)
                                && Contents() == Apply(history[|history| - 1], Assign(runnerID, sessionID))
      ensures r != Assigned ==> Contents() == history[|history| - 1]
      ensures r == ConditionFailed ==> !IsIdle(history[|history| - 1], runnerID)
      ensures history[|history| - 1] == ApplyAll(old(Contents()), others(old(clock)))
      ensures r == AssignError <==> fault(old(clock))
    {
      attempts := attempts + [runnerID];
      var ok := Arrive();
      if !ok { return AssignError; }
      if !(runnerID in items && items[runnerID].state == StateIdle) { return ConditionFailed; }
      ItemsRefineTable(items, Assign(runnerID, sessionID));
      items := ApplyItems(items, Assign(runnerID, sessionID));
      return Assigned;
    }

    /** The session index: any one item carrying the session; an empty key is no legal query. */
    method FindBySessionID(sessionID: string) returns (r: Result<Runner>)
      requires Valid()
      modifies this
      ensures Valid() && attempts == old(attempts)
      ensures |history| == |old(history)| + 1 && old(history) <= history && UpToDate()
      ensures Contents() == ApplyAll(old(Contents()), others(old(clock)))
      ensures r.Success? ==> Reads(Contents(), r.value) && Holds(Contents(), r.value.runnerId, sessionID)
      ensures r == Failure(ErrNotFound) ==> sessionID != "" && NobodyHolds(Contents(), sessionID)
      ensures r.Failure? && r.error != ErrNotFound ==> r.error == ErrBackend
      ensures r == Failure(ErrBackend) <==> sessionID == "" || fault(old(clock))
    {
      var ok := Arrive();
      if !ok || sessionID == "" { return Failure(ErrBackend); }
      var found := set id | id in items && items[id].currentSessionId == sessionID;
      if found == {} {
        assert forall id | Holds(Contents(), id, sessionID) :: id in found;
        return Failure(ErrNotFound);
      }
      var id :| id in found;
      return Success(items[id]);
    }

    method FindByID(runnerID: string) returns (r: Result<Runner>)
      requires Valid()
      modifies this
      ensures Valid() && attempts == old(attempts)
      ensures |history| == |old(history)| + 1 && old(history) <= history && UpToDate()
      ensures Contents() == ApplyAll(old(Contents()), others(old(clock)))
      ensures r.Success? ==> r.value.runnerId == runnerID && Reads(Contents(), r.value)
      ensures r == Failure(ErrNotFound) ==> runnerID !in Contents()
      ensures r.Failure? && r.error != ErrNotFound ==> r.error == ErrBackend
      ensures r == Failure(ErrBackend) <==> fault(old(clock))
    {
      var ok := Arrive();
      if !ok { return Failure(ErrBackend); }
      if runnerID !in items { return Failure(ErrNotFound); }
      return Success(items[runnerID]);
    }

    ghost predicate UpToDate() reads this {
      history != [] && Contents() == history[|history| - 1]
    }

    /** What a running scan knows: nothing tried twice, everything tried once unavailable. */
    ghost predicate Scanning(since: nat, first: nat, tried: seq<string>, t0: Table) reads this {
      && Valid() && since <= |history| && TriedOnce(attempts, first, tried)
      && AllUnavailable(history, since, tried) && Follows(history, others, since, t0)
      && Contents() == (if |history| == since then t0 else history[|history| - 1])
      && Unfailed(fault, since, |history|)
      && (Alone() ==> Contents() == t0 && Still(history, since, t0))
    }

    /** One attempt of a scan, on a candidate that has not been tried. */
    method TryCandidate(id: string, sessionID: string, tried: seq<string>,
                        ghost since: nat, ghost first: nat, ghost t0: Table)
      returns (r: AssignOutcome)
      requires Scanning(since, first, tried, t0) && UpToDate() && id !in tried
      modifies this
      ensures Valid() && |history| == |old(history)| + 1 && old(history) <= history && old(attempts) <= attempts
      ensures first <= |attempts| && Distinct(attempts[first..]) && Follows(history, others, since, t0)
      ensures forall xs :: AllUnavailable(old(history), since, xs) ==> AllUnavailable(history, since, xs)
      ensures r == Assigned ==>
                && IsIdle(history[|history| - 1], id)
                && Contents() == Apply(history[|history| - 1], Assign(id, sessionID))
                && Unfailed(fault, since, |history|) && (Alone() ==> Still(history, since, t0))
      ensures r == ConditionFailed ==>
                && Scanning(since, first, tried + [id], t0) && UpToDate() && SawUnavailable(history, since, id)
                && (Alone() ==> !IsIdle(old(Contents()), id))
      ensures r == AssignError ==> fault(|history| - 1) && UpToDate() && (Alone() ==> Contents() == t0)
    {
      hide Unfailed, SawUnavailable, AllUnavailable, TriedOnce, Distinct, Follows, TableOf, WellKeyed;
      ghost var before := history;
      OneMoreTry(attempts, first, tried, id);
      UnfailedMore(fault, since, |history|);
      r := AssignSession(id, sessionID);
      Grow(before, history, since, Above, "", None);
      assert history == before + [history[|history| - 1]];
      FollowsOn(before, others, since, t0, history[|history| - 1]);
      if r == ConditionFailed {
        SawNow(history, since, id);
        OneMoreTried(history, since, tried, id);
      }
    }

    method AssignFirst(sessionID: string, candidates: seq<Runner>, tried0: seq<string>,
                       ghost since: nat, ghost first: nat, ghost t0: Table)
      returns (r: Result<Option<Runner>>, tried: seq<string>, ghost at: nat)
      requires Scanning(since, first, tried0, t0) && UpToDate()
      requires forall c | c in candidates :: Offered(history, since, c.runnerId, c.privateHost)
      modifies this
      ensures Valid() && old(history) <= history && old(attempts) <= attempts
      ensures first <= |attempts| && Distinct(attempts[first..]) && Follows(history, others, since, t0)
      ensures r.Success? && r.value.None? ==>
                Scanning(since, first, tried, t0) && UpToDate() && AllUnavailable(history, since, Keys(candidates))
      ensures r.Success? && r.value.Some? ==>
                && at < |candidates| && r.value.value.runnerId == candidates[at].runnerId
                && IsIdle(history[|history| - 1], candidates[at].runnerId)
                && Granted(history, since, r.value.value, sessionID, Contents())
                && AllUnavailable(history, since, Keys(candidates)[..at])
                && Unfailed(fault, since, |history|) && (Alone() ==> Still(history, since, t0))
      ensures r.Failure? ==>
                r.error == ErrBackend && UpToDate() && fault(|history| - 1) && (Alone() ==> Contents() == t0)
      ensures candidates == [] ==> r == Success(None) && tried == tried0 && history == old(history)
      ensures Alone() && tried0 == [] && candidates != [] && old(Offers(Contents(), candidates)) ==>
                |history| == |old(history)| + 1 && (r.Success? ==> r.value.Some?)
    {
      hide Unfailed, SawUnavailable, Offered, AllUnavailable, TriedOnce, Distinct, Follows, TableOf, WellKeyed, Keys,
           Still, Apply;
      tried, at := tried0, 0;
      ghost var ids := Keys(candidates);
      NoneUnavailable(history, since, ids[..0]);
      for i := 0 to |candidates|
        invariant Scanning(since, first, tried, t0) && UpToDate()
        invariant old(history) <= history && old(attempts) <= attempts
        invariant AllUnavailable(history, since, ids[..i])
        invariant candidates == [] ==> tried == tried0 && history == old(history)
        invariant Alone() && tried0 == [] && old(Offers(Contents(), candidates)) ==>
                    i == 0 && tried == [] && history == old(history) && Contents() == old(Contents())
      {
        var runner := candidates[i];
        if runner.runnerId in tried {
          OneMoreUnavailable(history, since, ids, i, tried);
          continue;
        }
        var outcome := TryCandidate(runner.runnerId, sessionID, tried, since, first, t0);
        if outcome == Assigned {
          OfferStands(old(history), history, since, runner.runnerId, runner.privateHost);
          return Success(Some(runner.(state := StateBusy, currentSessionId := sessionID))), tried, i;
        }
        if outcome != ConditionFailed { return Failure(ErrBackend), tried, at; }
        OneMoreUnavailable(history, since, ids, i, tried);
        tried := tried + [runner.runnerId];
      }
      TriesDistinct(attempts, first, tried);
      assert ids[..|candidates|] == ids;
      return Success(None), tried, at;
    }

    /** One turn of the page loop: reads a page and tries its candidates. */
    method TryPage(segment: Segment, start: string, exclusiveStart: Option<string>, sessionID: string,
                   tried0: seq<string>, ghost since: nat, ghost first: nat, ghost t0: Table)
      returns (r: Result<Option<Runner>>, next: Option<string>, tried: seq<string>)
      requires Scanning(since, first, tried0, t0)
      requires SegmentUnavailable(history, since, Above, start) || segment == Above
      requires Covered(history, since, segment, start, exclusiveStart)
      modifies this
      ensures Valid() && old(history) <= history && old(attempts) <= attempts
      ensures first <= |attempts| && Distinct(attempts[first..]) && Follows(history, others, since, t0)
      ensures |history| > |old(history)|
      ensures r.Success? && r.value.None? ==>
                && Scanning(since, first, tried, t0) && UpToDate()
                && (next.Some? ==> Covered(history, since, segment, start, next) && ValidRunnerId(next.value)
                                   && Headroom(next.value) <= Pow16(ID_LENGTH)
                                   && (exclusiveStart.Some? ==> Headroom(next.value) < Headroom(exclusiveStart.value)))
                && (next.None? ==> SegmentUnavailable(history, since, segment, start))
      ensures r.Success? && r.value.Some? ==>
                && Granted(history, since, r.value.value, sessionID, Contents())
                && InSegment(segment, start, r.value.value.runnerId)
                && Unfailed(fault, since, |history|)
                && (Alone() ==> Still(history, since, t0) && Pick(t0, start) == Some(r.value.value.runnerId))
      ensures r.Failure? ==>
                r.error == ErrBackend && UpToDate() && fault(|history| - 1) && (Alone() ==> Contents() == t0)
      ensures Alone() && tried0 == [] ==> |history| <= |old(history)| + 2
      ensures Alone() && tried0 == [] && r.Success? ==>
                if r.value.None? then next.None? && tried == [] && |history| == |old(history)| + 1
                else |history| == |old(history)| + 2
    {
      hide Unfailed, TriedOnce, Distinct, AllUnavailable, Covered, SegmentUnavailable, Granted, IsPage, Offers,
           SawUnavailable, Offered, Follows, TableOf, WellKeyed, Keys, Pow16, Headroom, ValidRunnerId, Pick, InSegment,
           ApplyAllItems, SlotOf;
      ghost var h0 := history;
      tried, next := tried0, None;
      TriesDistinct(attempts, first, tried);
      UnfailedMore(fault, since, |history|);
      var page := QueryIdlePage(segment, start, exclusiveStart);
      assert history == h0 + [history[|history| - 1]];
      FollowsOn(h0, others, since, t0, history[|history| - 1]);
      if page.Failure? { return Failure(page.error), next, tried; }
      var runners := page.value.0;
      next := page.value.1;
      ghost var h1, ids := history, Keys(runners);
      Grow(h0, history, since, segment, start, exclusiveStart);
      OfferNow(history, since, runners);
      ghost var at;
      r, tried, at := AssignFirst(sessionID, runners, tried, since, first, t0);
      if r.Success? && r.value.Some? {
        PageInSegment(h1[|h1| - 1], segment, start, exclusiveStart, ids, next, at);
        if Alone() { GrantIsPick(t0, h1, history, since, segment, start, exclusiveStart, ids, next, at); }
      } else if r.Success? {
        PageCovers(h1, history, since, segment, start, exclusiveStart, ids, next);
        if next.Some? { PageAdvances(h1[|h1| - 1], segment, start, exclusiveStart, ids, next); }
      }
    }

    /** The page loop over one key range. */
    method ScanSegment(segment: Segment, start: string, sessionID: string, tried0: seq<string>,
                       ghost since: nat, ghost first: nat, ghost t0: Table)
      returns (r: Result<Option<Runner>>, tried: seq<string>)
      requires Scanning(since, first, tried0, t0)
      requires SegmentUnavailable(history, since, Above, start) || segment == Above
      modifies this
      ensures Valid() && old(history) <= history && old(attempts) <= attempts
      ensures first <= |attempts| && Distinct(attempts[first..]) && Follows(history, others, since, t0)
      ensures |history| > |old(history)|
      ensures r.Success? && r.value.None? ==>
                && Scanning(since, first, tried, t0) && UpToDate()
                && SegmentUnavailable(history, since, Above, start)
                && SegmentUnavailable(history, since, segment, start)
      ensures r.Success? && r.value.Some? ==>
                && Granted(history, since, r.value.value, sessionID, Contents())
                && InSegment(segment, start, r.value.value.runnerId)
                && Unfailed(fault, since, |history|)
                && (Alone() ==> Still(history, since, t0) && Pick(t0, start) == Some(r.value.value.runnerId))
      ensures r.Failure? ==>
                r.error == ErrBackend && UpToDate() && fault(|history| - 1) && (Alone() ==> Contents() == t0)
      ensures Alone() && tried0 == [] ==> |history| <= |old(history)| + 2
      ensures Alone() && tried0 == [] && r.Success? ==>
                if r.value.None? then tried == [] && |history| == |old(history)| + 1
                else |history| == |old(history)| + 2
    {
      hide Unfailed, TriedOnce, Distinct, AllUnavailable, Covered, SegmentUnavailable, Granted, Follows, TableOf,
           WellKeyed, Pick, Pow16, Headroom, ValidRunnerId, InSegment, Still;
      tried := tried0;
      var exclusiveStart: Option<string> := None;
      NothingCovered(history, since, segment, start);
      while true
        invariant Scanning(since, first, tried, t0) && old(history) <= history && old(attempts) <= attempts
        invariant SegmentUnavailable(history, since, Above, start) || segment == Above
        invariant Covered(history, since, segment, start, exclusiveStart)
        invariant Alone() && tried0 == [] ==> exclusiveStart.None? && history == old(history) && tried == []
        decreases if exclusiveStart.None? then Pow16(ID_LENGTH) + 2 else Headroom(exclusiveStart.value)
      {
        ghost var h0 := history;
        var answer, next;
        answer, next, tried := TryPage(segment, start, exclusiveStart, sessionID, tried, since, first, t0);
        if answer.Failure? || answer.value.Some? { return answer, tried; }
        Grow(h0, history, since, segment, start, None);
        if next.None? { return answer, tried; }
        exclusiveStart := next;
      }
    }

    /**
     Scans (start, max] and then [min, start]; every id of both ranges refused means no idle runner. Undisturbed, a
     success takes two requests, three when the scan wraps around.
     */
    method AcquireIdle(sessionID: string) returns (r: Result<Runner>)
      requires Valid()
      modifies this
      ensures Valid() && old(history) <= history && old(attempts) <= attempts
      ensures Distinct(attempts[|old(attempts)|..])
      ensures r.Success? ==> Granted(history, |old(history)|, r.value, sessionID, Contents())
      ensures r.Success? ==> HostRead(history, others, |old(history)|, r.value)
      ensures |history| > |old(history)|
      ensures Follows(history, others, |old(history)|, old(Contents()))
      ensures Alone() && r.Success? ==>
                clock == old(clock) + if Less(randHex(old(clock)), r.value.runnerId) then 2 else 3
      ensures r == Failure(ErrNoIdleRunner) ==> forall id :: SawUnavailable(history, |old(history)|, id)
      ensures r.Failure? ==> r.error in {ErrNoIdleRunner, ErrBackend}
                             && |history| > |old(history)| && Contents() == history[|history| - 1]
      ensures r != Failure(ErrBackend) ==> Unfailed(fault, old(clock), clock)
      ensures r == Failure(ErrBackend) ==> fault(clock - 1) && (Alone() ==> Contents() == old(Contents()))
      ensures Alone() && Direct(old(Contents()), randHex(old(clock))) ==> clock <= old(clock) + 2
      ensures r != Failure(ErrBackend) && Alone() ==>
                && r == AcquireResult(old(Contents()), randHex(old(clock)), sessionID)
                && Contents() == AcquireTable(old(Contents()), randHex(old(clock)), sessionID)
    {
      UnfailedMore(fault, |history|, |history|);
      var tried: seq<string> := [];
      var start := randHex(clock);
      ghost var since, first, t0 := |history|, |attempts|, Contents();
      var segments := [Above, UpTo];
      for s := 0 to 2
        invariant Scanning(since, first, tried, t0) && old(history) <= history && old(attempts) <= attempts
        invariant s >= 1 ==> UpToDate() && |history| > since && SegmentUnavailable(history, since, Above, start)
        invariant s == 2 ==> SegmentUnavailable(history, since, UpTo, start)
        invariant Alone() ==> tried == [] && |history| == since + s
        invariant Alone() && Direct(t0, start) ==> s == 0
      {
        var answer;
        answer, tried := ScanSegment(segments[s], start, sessionID, tried, since, first, t0);
        if answer.Failure? { return Failure(answer.error); }
        if answer.value.Some? {
          GrantedHost(history, others, since, t0, answer.value.value, sessionID, Contents());
          if Alone() { GrantTable(t0, history, since, start, sessionID, answer.value.value, Contents()); }
          return Success(answer.value.value);
        }
        if Alone() { NotDirect(t0, history, since, start); }
      }
      if Alone() { NothingToPick(t0, history, since, start); }
      forall id ensures SawUnavailable(history, since, id) {
        assert InSegment(if Less(start, id) then Above else UpTo, start, id);
      }
      return Failure(ErrNoIdleRunner);
    }
  }
}
