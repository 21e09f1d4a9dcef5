/** The Firestore implementation: the state is read off a null session, the last id is the cursor. */
module FirestoreStore {
  import opened Text
  import opened Ids
  import opened RunnerTable
  import opened RunnerHistory
  import opened RunnerScan

  datatype Field = Null | Str(s: string) | Other

  type Data = map<string, Field>

  const PRIVATE_HOST := "privateHost"
  const CURRENT_SESSION_ID := "currentSessionId"

  datatype RunnerDoc = RunnerDoc(runnerId: string, privateHost: string, currentSessionId: string)

  /** Strict reading of a document: a missing or ill-typed field is an error, never a silent blank. */
  function SnapshotToDoc(id: string, data: Data): Option<RunnerDoc> {
    if !(PRIVATE_HOST in data && data[PRIVATE_HOST].Str?) then None
    else if CURRENT_SESSION_ID !in data then None
    else
      match data[CURRENT_SESSION_ID]
      case Null => Some(RunnerDoc(id, data[PRIVATE_HOST].s, ""))
      case Str(s) => Some(RunnerDoc(id, data[PRIVATE_HOST].s, s))
      case Other => None
  }

  function ToModel(d: RunnerDoc): Runner {
    Runner(d.runnerId, if d.currentSessionId == "" then StateIdle else StateBusy, d.currentSessionId, d.privateHost)
  }

  predicate SessionIsNull(data: Data) {
    CURRENT_SESSION_ID in data && data[CURRENT_SESSION_ID] == Null
  }

  function SlotOf(data: Data): Slot {
    match SnapshotToDoc("", data)
    case None => Malformed
    case Some(d) => if SessionIsNull(data) then Idle(d.privateHost) else Busy(d.privateHost, d.currentSessionId)
  }

  function TableOf(docs: map<string, Data>): Table {
    map id | id in docs :: SlotOf(docs[id])
  }

  /**
   Reading the state off the session is right exactly when the stored session is not the empty string;
   the service never stores one, its ids carry the stack prefix and a separator.
   */
  lemma NullSessionReading(docs: map<string, Data>, id: string)
    requires id in docs && SnapshotToDoc(id, docs[id]).Some?
    ensures Reads(TableOf(docs), ToModel(SnapshotToDoc(id, docs[id]).value))
            <==> docs[id][CURRENT_SESSION_ID] != Str("")
  {
    assert TableOf(docs)[id] == SlotOf(docs[id]);
  }

  /** The effect of one request: create-if-absent, the assign transaction, delete. */
  function ApplyDocs(docs: map<string, Data>, op: Op): map<string, Data> {
    match op
    case Put(id, host) =>
      if ValidRunnerId(id) && host != "" && id !in docs
      then docs[id := map[PRIVATE_HOST := Str(host), CURRENT_SESSION_ID := Null]] else docs
    case Assign(id, session) =>
      if id in docs && SessionIsNull(docs[id])
      then docs[id := docs[id][CURRENT_SESSION_ID := Str(session)]] else docs
    case Remove(id) => docs - {id}
  }

  predicate WellKeyed(docs: map<string, Data>) {
    forall id | id in docs :: ValidRunnerId(id)
  }

  lemma DocsRefineTable(docs: map<string, Data>, op: Op)
    ensures WellKeyed(docs) ==> WellKeyed(ApplyDocs(docs, op))
    ensures TableOf(ApplyDocs(docs, op)) == Apply(TableOf(docs), op)
  {
    if op.Assign? && op.id in docs && SessionIsNull(docs[op.id]) {
      var data := docs[op.id];
      var data' := data[CURRENT_SESSION_ID := Str(op.session)];
      assert PRIVATE_HOST != CURRENT_SESSION_ID;
      assert PRIVATE_HOST in data' <==> PRIVATE_HOST in data;
      assert SlotOf(data') == if SlotOf(data).Idle? then Busy(SlotOf(data).host, op.session) else SlotOf(data);
    }
    assert TableOf(ApplyDocs(docs, op)) == Apply(TableOf(docs), op);
  }

  function ApplyAllDocs(docs: map<string, Data>, ops: seq<Op>): (r: map<string, Data>)
    requires WellKeyed(docs)
    ensures WellKeyed(r) && NoNewMalformed(TableOf(docs), TableOf(r)) && TableOf(r) == ApplyAll(TableOf(docs), ops)
    decreases ops
  {
    if ops == [] then docs
    else
      DocsRefineTable(docs, ops[0]);
      ApplyAllDocs(ApplyDocs(docs, ops[0]), ops[1..])
  }

  datatype Snapshot = Snapshot(id: string, data: Data)

  function SnapshotIds(snaps: seq<Snapshot>): (ids: seq<string>)
    ensures |ids| == |snaps| && forall i | 0 <= i < |ids| :: ids[i] == snaps[i].id
  {
    seq(|snaps|, i requires 0 <= i < |snaps| => snaps[i].id)
  }

  /** Documents with a null session in (after, upTo]; an empty bound is no bound. */
  function InRange(docs: map<string, Data>, after: string, upTo: string): set<string> {
    set id | id in docs && SessionIsNull(docs[id]) && (after == "" || Less(after, id))
        && (upTo == "" || !Less(upTo, id))
  }

  function QueryPage(docs: map<string, Data>, after: string, upTo: string, limit: nat): seq<Snapshot> {
    var ids := Smallest(InRange(docs, after, upTo), limit);
    assert forall i | 0 <= i < |ids| :: ids[i] in ids;
    seq(|ids|, i requires 0 <= i < |ids| => Snapshot(ids[i], docs[ids[i]]))
  }

  /** Each snapshot shows its document as the table had it. */
  ghost predicate Shows(t: Table, snaps: seq<Snapshot>) {
    forall s | s in snaps :: s.id in t && t[s.id] == SlotOf(s.data)
  }

  /** The query bounds of a segment continued after `cursor`, as AcquireIdle moves `after`. */
  predicate Bounds(segment: Segment, start: string, cursor: Option<string>, after: string, upTo: string) {
    match segment
    case Above => upTo == "" && (cursor.None? ==> after == start)
        && (cursor.Some? ==> after == cursor.value && Less(start, after))
    case UpTo => upTo == start && (cursor.None? ==> after == "") && (cursor.Some? ==> after == cursor.value)
  }

  lemma QueryPageIsPage(docs: map<string, Data>, segment: Segment, start: string, cursor: Option<string>,
                        after: string, upTo: string)
    requires WellKeyed(docs) && ValidRunnerId(start) && Bounds(segment, start, cursor, after, upTo)
    requires cursor.Some? ==> ValidRunnerId(cursor.value)
    ensures var snaps := QueryPage(docs, after, upTo, ACQUIRE_QUERY_LIMIT);
            && IsPage(TableOf(docs), segment, start, cursor, SnapshotIds(snaps),
                NextKey(SnapshotIds(snaps), ACQUIRE_QUERY_LIMIT))
            && Shows(TableOf(docs), snaps)
            && (forall s | s in snaps :: ValidRunnerId(s.id)) && |snaps| <= ACQUIRE_QUERY_LIMIT
  {
    var range := InRange(docs, after, upTo);
    var ids := Smallest(range, ACQUIRE_QUERY_LIMIT);
    var snaps := QueryPage(docs, after, upTo, ACQUIRE_QUERY_LIMIT);
    assert forall i | 0 <= i < |ids| :: ids[i] in ids && ids[i] in range;
    assert SnapshotIds(snaps) == ids;
    forall id | cursor.Some? && segment == Above && Less(cursor.value, id) ensures Less(start, id) {
      LessTransitive(start, cursor.value, id);
    }
    SmallestIsPage(TableOf(docs), segment, start, cursor, range, ACQUIRE_QUERY_LIMIT);
  }

  lemma QueryPageIsNull(docs: map<string, Data>, after: string, upTo: string, limit: nat)
    ensures forall s | s in QueryPage(docs, after, upTo, limit) :: SessionIsNull(s.data)
  {
    var ids := Smallest(InRange(docs, after, upTo), limit);
    assert forall i | 0 <= i < |ids| :: ids[i] in ids;
  }

  /** What a null-session snapshot says of its slot. */
  lemma CandidateSlot(t: Table, candidates: seq<Snapshot>, i: nat)
    requires i < |candidates| && Shows(t, candidates) && forall s | s in candidates :: SessionIsNull(s.data)
    ensures var s := candidates[i];
            s.id in t && match SnapshotToDoc(s.id, s.data)
                         case None => t[s.id] == Malformed
                         case Some(doc) => t[s.id] == Idle(doc.privateHost)
  {
    assert candidates[i] in candidates;
  }

  class FirestoreRepository {
    var docs: map<string, Data>
    const others: nat -> seq<Op>
    const fault: nat -> bool
    const randHex: nat -> string
    var clock: nat
    ghost var history: seq<Table>
    ghost var attempts: seq<string>

    ghost predicate Valid() reads this {
      WellKeyed(docs) && clock == |history| && forall n :: ValidRunnerId(randHex(n))
    }

    ghost function Contents(): Table reads this { TableOf(docs) }

    /** No other broker acts. */
    ghost predicate Alone() { forall n :: others(n) == [] }

    ghost predicate UpToDate() reads this {
      history != [] && Contents() == history[|history| - 1]
    }

    constructor (others: nat -> seq<Op>, fault: nat -> bool, randHex: nat -> string)
      requires forall n :: ValidRunnerId(randHex(n))
      ensures Valid() && Contents() == map[] && history == [] && attempts == []
      ensures this.others == others && this.fault == fault && this.randHex == randHex
    {
      this.others, this.fault, this.randHex := others, fault, randHex;
      docs, clock, history, attempts := map[], 0, [], [];
    }

    method Arrive() returns (ok: bool)
      requires Valid()
      modifies this`docs, this`clock, this`history
      ensures Valid() && clock == old(clock) + 1
      ensures docs == ApplyAllDocs(old(docs), others(old(clock)))
      ensures history == old(history) + [Contents()]
      ensures ok == !fault(old(clock)) && NoNewMalformed(old(Contents()), Contents())
      ensures Contents() == ApplyAll(old(Contents()), others(old(clock)))
      ensures Alone() ==> docs == old(docs)
    {
      docs := ApplyAllDocs(docs, others(clock));
      ok := !fault(clock);
      clock := clock + 1;
      history := history + [Contents()];
    }

    method Register(runnerID: string, privateHost: string) returns (r: Result<()>)
      requires Valid()
      modifies this
      ensures Valid() && attempts == old(attempts)
      ensures !ValidRunnerId(runnerID) ==> r == Failure(ErrInvalidRunnerId) && unchanged(this)
      ensures ValidRunnerId(runnerID) && privateHost == "" ==> r == Failure(ErrInvalidPrivateHost) && unchanged(this)
      ensures ValidRunnerId(runnerID) && privateHost != "" ==>
                && |history| == |old(history)| + 1 && old(history) <= history
                && var seen := history[|history| - 1];
                && (r == Failure(ErrConflict) ==> runnerID in seen && Contents() == seen)
                && (r == Success(()) ==> runnerID !in seen && Contents() == seen[runnerID := Idle(privateHost)])
                && (r.Failure? && r.error != ErrConflict
                    ==> r.error == ErrBackend && fault(old(clock)) && Contents() == seen)
                && seen == ApplyAll(old(Contents()), others(old(clock)))
    {
      if !ValidRunnerId(runnerID) { return Failure(ErrInvalidRunnerId); }
      if privateHost == "" { return Failure(ErrInvalidPrivateHost); }
      var ok := Arrive();
      if !ok { return Failure(ErrBackend); }
      if runnerID in docs { return Failure(ErrConflict); }
      DocsRefineTable(docs, Put(runnerID, privateHost));
      docs := ApplyDocs(docs, Put(runnerID, privateHost));
      return Success(());
    }

    method Delete(runnerID: string) returns (r: Result<()>)
      requires Valid()
      modifies this
      ensures Valid() && attempts == old(attempts)
      ensures |history| == |old(history)| + 1 && old(history) <= history
      ensures r.Success? ==> Contents() == history[|history| - 1] - {runnerID}
      ensures r.Failure? ==> r.error == ErrBackend && Contents() == history[|history| - 1]
      ensures r.Failure? <==> fault(old(clock))
      ensures history[|history| - 1] == ApplyAll(old(Contents()), others(old(clock)))
    {
      var ok := Arrive();
      if !ok { return Failure(ErrBackend); }
      DocsRefineTable(docs, Remove(runnerID));
      docs := ApplyDocs(docs, Remove(runnerID));
      return Success(());
    }

    /** Any one document with that session; a malformed one is an error. The empty session would read as idle. */
    method FindBySessionID(sessionID: string) returns (r: Result<Runner>)
      requires Valid()
      modifies this
      ensures Valid() && attempts == old(attempts)
      ensures |history| == |old(history)| + 1 && old(history) <= history && UpToDate()
      ensures Contents() == ApplyAll(old(Contents()), others(old(clock)))
      ensures r.Success? ==>
                Holds(Contents(), r.value.runnerId, sessionID) && (Reads(Contents(), r.value) <==> sessionID != "")
      ensures r == Failure(ErrNotFound) ==> NobodyHolds(Contents(), sessionID)
      ensures r.Failure? && r.error != ErrNotFound ==>
                && r.error == ErrBackend
                && (fault(old(clock)) || exists id :: id in Contents() && Contents()[id] == Malformed)
      ensures fault(old(clock)) ==> r == Failure(ErrBackend)
    {
      var ok := Arrive();
      if !ok { return Failure(ErrBackend); }
      var found := set id | id in docs && CURRENT_SESSION_ID in docs[id]
          && docs[id][CURRENT_SESSION_ID] == Str(sessionID);
      if found == {} {
        assert forall id | Holds(Contents(), id, sessionID) :: id in found;
        return Failure(ErrNotFound);
      }
      var id :| id in found;
      var doc := SnapshotToDoc(id, docs[id]);
      assert Contents()[id] == SlotOf(docs[id]);
      if doc.None? { return Failure(ErrBackend); }
      NullSessionReading(docs, id);
      return Success(ToModel(doc.value));
    }

    method FindByID(runnerID: string) returns (r: Result<Runner>)
      requires Valid()
      modifies this
      ensures Valid() && attempts == old(attempts)
      ensures |history| == |old(history)| + 1 && old(history) <= history && UpToDate()
      ensures Contents() == ApplyAll(old(Contents()), others(old(clock)))
      ensures r.Success? ==> r.value.runnerId == runnerID
                             && (Reads(Contents(), r.value) <==> !Holds(Contents(), runnerID, ""))
      ensures r == Failure(ErrNotFound) ==> runnerID !in Contents()
      ensures r.Failure? && r.error != ErrNotFound ==> r.error == ErrBackend
      ensures r == Failure(ErrBackend) <==>
                fault(old(clock)) || (runnerID in Contents() && Contents()[runnerID] == Malformed)
    {
      var ok := Arrive();
      if !ok { return Failure(ErrBackend); }
      if runnerID !in docs { return Failure(ErrNotFound); }
      var doc := SnapshotToDoc(runnerID, docs[runnerID]);
      assert Contents()[runnerID] == SlotOf(docs[runnerID]);
      if doc.None? { return Failure(ErrBackend); }
      NullSessionReading(docs, runnerID);
      return Success(ToModel(doc.value));
    }

    method QueryIdleRange(after: string, upTo: string, limit: nat) returns (r: Result<seq<Snapshot>>)
      requires Valid()
      modifies this`docs, this`clock, this`history
      ensures Valid() && |history| == |old(history)| + 1 && old(history) <= history && UpToDate()
      ensures Contents() == ApplyAll(old(Contents()), others(old(clock)))
      ensures r.Failure? <==> fault(old(clock))
      ensures r.Failure? ==> r.error == ErrBackend
      ensures r.Success? ==> r.value == QueryPage(docs, after, upTo, limit)
    {
      var ok := Arrive();
      if !ok { return Failure(ErrBackend); }
      return Success(QueryPage(docs, after, upTo, limit));
    }

    /** The transaction: read the document again and set the session only if it is still null. */
    method AssignSession(runnerID: string, sessionID: string) returns (r: AssignOutcome)
      requires Valid()
      modifies this
      ensures Valid() && attempts == old(attempts) + [runnerID]
      ensures |history| == |old(history)| + 1 && old(history) <= history
      ensures NoNewMalformed(old(Contents()), history[|history| - 1]) && NoNewMalformed(old(Contents()), Contents())
      ensures r == Assigned ==> Contents() == Apply(history[|history| - 1], Assign(runnerID, sessionID))
                                && runnerID in history[|history| - 1] && !history[|history| - 1][runnerID].Busy?
      ensures r != Assigned ==> Contents() == history[|history| - 1]
      ensures r == ConditionFailed ==> !IsIdle(history[|history| - 1], runnerID)
      ensures history[|history| - 1] == ApplyAll(old(Contents()), others(old(clock)))
      ensures r == AssignError <==> fault(old(clock))
      ensures var seen := ApplyAllDocs(old(docs), others(old(clock)));
              && (r != AssignError ==> (r == Assigned <==> runnerID in seen && SessionIsNull(seen[runnerID])))
              && docs == if r == Assigned then seen[runnerID := seen[runnerID][CURRENT_SESSION_ID := Str(sessionID)]]
                         else seen
    {
      attempts := attempts + [runnerID];
      var ok := Arrive();
      if !ok { return AssignError; }
      if !(runnerID in docs && SessionIsNull(docs[runnerID])) { return ConditionFailed; }
      DocsRefineTable(docs, Assign(runnerID, sessionID));
      docs := ApplyDocs(docs, Assign(runnerID, sessionID));
      return Assigned;
    }

    ghost predicate Scanning(since: nat, first: nat, tried: seq<string>, t0: Table) reads this {
      && Valid() && since <= |history| && TriedOnce(attempts, first, tried)
      && AllUnavailable(history, since, tried) && Follows(history, others, since, t0)
      && Contents() == (if |history| == since then t0 else history[|history| - 1])
      && Unfailed(fault, since, |history|)
      && (Alone() ==> Contents() == t0 && Still(history, since, t0))
    }

    /** One attempt of a scan, on a candidate that was idle in `base` and has not been tried. */
    method TryCandidate(id: string, sessionID: string, tried: seq<string>,
                        ghost since: nat, ghost first: nat, ghost t0: Table, ghost base: Table)
      returns (r: AssignOutcome)
      requires Scanning(since, first, tried, t0) && UpToDate() && since < |history|
      requires id !in tried && NoNewMalformed(base, Contents()) && IsIdle(base, id)
      modifies this
      ensures Valid() && |history| == |old(history)| + 1 && old(history) <= history && old(attempts) <= attempts
      ensures first <= |attempts| && Distinct(attempts[first..]) && Follows(history, others, since, t0)
      ensures forall xs :: AllUnavailable(old(history), since, xs) ==> AllUnavailable(history, since, xs)
      ensures r == Assigned ==>
                && IsIdle(history[|history| - 1], id)
                && Contents() == Apply(history[|history| - 1], Assign(id, sessionID))
                && Unfailed(fault, since, |history|) && (Alone() ==> Still(history, since, t0))
      ensures r == ConditionFailed ==>
                && Scanning(since, first, tried + [id], t0) && UpToDate() && NoNewMalformed(base, Contents())
                && SawUnavailable(history, since, id)
      ensures r == AssignError ==> fault(|history| - 1) && UpToDate() && (Alone() ==> Contents() == t0)
    {
      hide Unfailed, SawUnavailable, AllUnavailable, NoNewMalformed, TriedOnce, Distinct, Follows, TableOf, WellKeyed,
           ApplyDocs, ApplyAllDocs, ValidRunnerId, SessionIsNull;
      ghost var before, t := history, Contents();
      OneMoreTry(attempts, first, tried, id);
      UnfailedMore(fault, since, |history|);
      r := AssignSession(id, sessionID);
      Grow(before, history, since, Above, "", None);
      assert history == before + [history[|history| - 1]];
      FollowsOn(before, others, since, t0, history[|history| - 1]);
      NoNewMalformedChain(base, t, history[|history| - 1]);
      NoNewMalformedChain(base, t, Contents());
      if r == ConditionFailed {
        SawNow(history, since, id);
        OneMoreTried(history, since, tried, id);
      }
    }

    /** Malformed candidates are skipped and remembered; of the others the first whose transaction commits is taken. */
    method AssignFirstIdle(sessionID: string, candidates: seq<Snapshot>, tried0: seq<string>,
                           ghost since: nat, ghost first: nat, ghost t0: Table)
      returns (r: Result<Option<Runner>>, tried: seq<string>, ghost at: nat)
      requires Scanning(since, first, tried0, t0) && UpToDate() && since < |history|
      requires Shows(Contents(), candidates) && forall s | s in candidates :: SessionIsNull(s.data)
      modifies this
      ensures Valid() && old(history) <= history && old(attempts) <= attempts
      ensures first <= |attempts| && Distinct(attempts[first..]) && Follows(history, others, since, t0)
      ensures r.Success? && r.value.None? ==>
                Scanning(since, first, tried, t0) && UpToDate()
                && AllUnavailable(history, since, SnapshotIds(candidates))
      ensures r.Success? && r.value.Some? ==>
                && at < |candidates| && r.value.value.runnerId == candidates[at].id
                && IsIdle(history[|history| - 1], candidates[at].id)
                && Granted(history, since, r.value.value, sessionID, Contents())
                && AllUnavailable(history, since, SnapshotIds(candidates)[..at])
                && Unfailed(fault, since, |history|) && (Alone() ==> Still(history, since, t0))
      ensures r.Failure? ==>
                r.error == ErrBackend && UpToDate() && fault(|history| - 1) && (Alone() ==> Contents() == t0)
    {
      hide Unfailed, SawUnavailable, Offered, AllUnavailable, NoNewMalformed, TriedOnce, Distinct, Follows, Still,
           Apply;
      hide SlotOf, SnapshotToDoc, SessionIsNull, TableOf, Shows, WellKeyed, ApplyAllDocs, SnapshotIds;
      tried, at := tried0, 0;
      ghost var shown, ids := history, SnapshotIds(candidates);
      ghost var base := Contents();
      NoneUnavailable(history, since, ids[..0]);
      NoNewMalformedChain(base, base, base);
      for i := 0 to |candidates|
        invariant Scanning(since, first, tried, t0) && UpToDate() && shown <= history
        invariant old(attempts) <= attempts
        invariant NoNewMalformed(base, Contents())
        invariant AllUnavailable(history, since, ids[..i])
      {
        var s := candidates[i];
        if s.id in tried {
          OneMoreUnavailable(history, since, ids, i, tried);
          continue;
        }
        ghost var before := history;
        var doc := SnapshotToDoc(s.id, s.data);
        CandidateSlot(base, candidates, i);
        if doc.None? {
          SawNow(shown, since, s.id);
          SawGrows(shown, history, since, s.id);
          TriesDistinct(attempts, first, tried);
        } else {
          var outcome := TryCandidate(s.id, sessionID, tried, since, first, t0, base);
          if outcome == Assigned {
            OfferStands(before, history, since, s.id, doc.value.privateHost);
            return Success(Some(Runner(s.id, StateBusy, sessionID, doc.value.privateHost))), tried, i;
          }
          if outcome != ConditionFailed { return Failure(ErrBackend), tried, at; }
        }
        OneMoreUnavailable(history, since, ids, i, tried);
        tried := tried + [s.id];
      }
      TriesDistinct(attempts, first, tried);
      assert ids[..|candidates|] == ids;
      return Success(None), tried, at;
    }

    /** Reads one page of the idle runners beyond the cursor. */
    method ReadPage(segment: Segment, start: string, after: string, upTo: string, ghost cursor: Option<string>,
                    ghost tried: seq<string>, ghost since: nat, ghost first: nat, ghost t0: Table)
      returns (page: Result<seq<Snapshot>>)
      requires Scanning(since, first, tried, t0) && ValidRunnerId(start)
      requires Bounds(segment, start, cursor, after, upTo) && (cursor.Some? ==> ValidRunnerId(cursor.value))
      modifies this
      ensures Valid() && |history| == |old(history)| + 1 && old(history) <= history && attempts == old(attempts)
      ensures Follows(history, others, since, t0) && UpToDate()
      ensures page.Failure? ==> page.error == ErrBackend && fault(|history| - 1) && (Alone() ==> Contents() == t0)
      ensures page.Success? ==>
                && Scanning(since, first, tried, t0) && Shows(Contents(), page.value)
                && |page.value| <= ACQUIRE_QUERY_LIMIT
                && (forall s | s in page.value :: SessionIsNull(s.data) && ValidRunnerId(s.id))
                && IsPage(history[|history| - 1], segment, start, cursor, SnapshotIds(page.value),
                          NextKey(SnapshotIds(page.value), ACQUIRE_QUERY_LIMIT))
    {
      hide Unfailed, TriedOnce, AllUnavailable, IsPage, SawUnavailable, QueryPage, SlotOf, TableOf, ApplyDocs,
           WellKeyed, ValidRunnerId, Follows, SnapshotIds, Shows, Smallest, ApplyAllDocs, InSegment, SessionIsNull;
      ghost var h0 := history;
      UnfailedMore(fault, since, |history|);
      page := QueryIdleRange(after, upTo, ACQUIRE_QUERY_LIMIT);
      assert history == h0 + [history[|history| - 1]];
      FollowsOn(h0, others, since, t0, history[|history| - 1]);
      Grow(h0, history, since, segment, start, cursor);
      QueryPageIsPage(docs, segment, start, cursor, after, upTo);
      QueryPageIsNull(docs, after, upTo, ACQUIRE_QUERY_LIMIT);
    }

    /** One turn of the page loop; a short page ends the segment, a full one moves the cursor to its last id. */
    method TryPage(segment: Segment, start: string, after: string, upTo: string, ghost cursor: Option<string>,
                   sessionID: string, tried0: seq<string>, ghost since: nat, ghost first: nat, ghost t0: Table)
      returns (r: Result<Option<Runner>>, next: Option<string>, tried: seq<string>)
      requires Scanning(since, first, tried0, t0) && ValidRunnerId(start)
      requires Bounds(segment, start, cursor, after, upTo) && (cursor.Some? ==> ValidRunnerId(cursor.value))
      requires SegmentUnavailable(history, since, Above, start) || segment == Above
      requires Covered(history, since, segment, start, cursor)
      modifies this
      ensures Valid() && old(history) <= history && old(attempts) <= attempts
      ensures first <= |attempts| && Distinct(attempts[first..]) && Follows(history, others, since, t0)
      ensures |history| > |old(history)|
      ensures r.Success? && r.value.None? ==>
                && Scanning(since, first, tried, t0) && UpToDate()
                && (next.Some? ==> Covered(history, since, segment, start, next) && ValidRunnerId(next.value)
                                   && InSegment(segment, start, next.value)
                                   && Headroom(next.value) <= Pow16(ID_LENGTH)
                                   && (cursor.Some? ==> Headroom(next.value) < Headroom(cursor.value)))
                && (next.None? ==> SegmentUnavailable(history, since, segment, start))
      ensures r.Success? && r.value.Some? ==>
                && Granted(history, since, r.value.value, sessionID, Contents())
                && Unfailed(fault, since, |history|)
                && (Alone() ==> Still(history, since, t0) && Pick(t0, start) == Some(r.value.value.runnerId))
      ensures r.Failure? ==>
                r.error == ErrBackend && UpToDate() && fault(|history| - 1) && (Alone() ==> Contents() == t0)
    {
      hide Unfailed, TriedOnce, Distinct, AllUnavailable, Covered, SegmentUnavailable, IsPage, SawUnavailable, Offered,
           QueryPage, SlotOf, TableOf, ApplyDocs, WellKeyed, ValidRunnerId, Headroom, Pow16, Follows, SnapshotIds,
           Pick, Shows, Smallest, Granted, ApplyAllDocs, InSegment, SessionIsNull, SnapshotToDoc;
      ghost var h0 := history;
      tried, next := tried0, None;
      TriesDistinct(attempts, first, tried);
      var page := ReadPage(segment, start, after, upTo, cursor, tried, since, first, t0);
      if page.Failure? { return Failure(page.error), next, tried; }
      var snaps := page.value;
      ghost var h1, ids := history, SnapshotIds(snaps);
      ghost var key := NextKey(ids, ACQUIRE_QUERY_LIMIT);
      Grow(h0, history, since, segment, start, cursor);
      ghost var at;
      if |snaps| == 0 {
        NoneUnavailable(history, since, ids);
        PageCovers(h1, history, since, segment, start, cursor, ids, key);
        return Success(None), None, tried;
      }
      r, tried, at := AssignFirstIdle(sessionID, snaps, tried, since, first, t0);
      if r.Success? && r.value.Some? {
        if Alone() { GrantIsPick(t0, h1, history, since, segment, start, cursor, ids, key, at); }
      } else if r.Success? {
        next := if |snaps| < ACQUIRE_QUERY_LIMIT then None else Some(snaps[|snaps| - 1].id);
        assert next == key;
        PageCovers(h1, history, since, segment, start, cursor, ids, key);
        if next.Some? {
          assert snaps[|snaps| - 1] in snaps;
          PageInSegment(h1[|h1| - 1], segment, start, cursor, ids, key, |ids| - 1);
          PageAdvances(h1[|h1| - 1], segment, start, cursor, ids, key);
        }
      }
    }

    method ScanSegment(segment: Segment, start: string, sessionID: string, tried0: seq<string>,
                       ghost since: nat, ghost first: nat, ghost t0: Table)
      returns (r: Result<Option<Runner>>, tried: seq<string>)
      requires Scanning(since, first, tried0, t0) && ValidRunnerId(start)
      requires SegmentUnavailable(history, since, Above, start) || segment == Above
      modifies this
      ensures Valid() && old(history) <= history && old(attempts) <= attempts
      ensures first <= |attempts| && Distinct(attempts[first..]) && Follows(history, others, since, t0)
      ensures |history| > |old(history)|
      ensures r.Success? && r.value.None? ==>
                && Scanning(since, first, tried, t0) && UpToDate()
                && SegmentUnavailable(history, since, Above, start)
                && SegmentUnavailable(history, since, segment, start)
      ensures r.Success? && r.value.Some? ==>
                && Granted(history, since, r.value.value, sessionID, Contents())
                && Unfailed(fault, since, |history|)
                && (Alone() ==> Still(history, since, t0) && Pick(t0, start) == Some(r.value.value.runnerId))
      ensures r.Failure? ==>
                r.error == ErrBackend && UpToDate() && fault(|history| - 1) && (Alone() ==> Contents() == t0)
    {
      hide Unfailed, TriedOnce, Distinct, AllUnavailable, Covered, SegmentUnavailable, Granted, TableOf, WellKeyed,
           Pick, Pow16, Headroom, Follows;
      tried := tried0;
      var after, upTo := if segment == Above then start else "", if segment == Above then "" else start;
      ghost var cursor: Option<string> := None;
      NothingCovered(history, since, segment, start);
      while true
        invariant Scanning(since, first, tried, t0) && old(history) <= history && old(attempts) <= attempts
        invariant SegmentUnavailable(history, since, Above, start) || segment == Above
        invariant Covered(history, since, segment, start, cursor)
        invariant Bounds(segment, start, cursor, after, upTo) && (cursor.Some? ==> ValidRunnerId(cursor.value))
        decreases if cursor.None? then Pow16(ID_LENGTH) + 2 else Headroom(cursor.value)
      {
        ghost var h0 := history;
        var answer, next;
        answer, next, tried := TryPage(segment, start, after, upTo, cursor, sessionID, tried, since, first, t0);
        if answer.Failure? || answer.value.Some? { return answer, tried; }
        Grow(h0, history, since, segment, start, None);
        if next.None? { return answer, tried; }
        after, cursor := next.value, next;
      }
    }

    method AcquireIdle(sessionID: string) returns (r: Result<Runner>)
      requires Valid()
      modifies this
      ensures Valid() && old(history) <= history && old(attempts) <= attempts
      ensures Distinct(attempts[|old(attempts)|..])
      ensures r.Success? ==> Granted(history, |old(history)|, r.value, sessionID, Contents())
      ensures r.Success? ==> HostRead(history, others, |old(history)|, r.value)
      ensures |history| > |old(history)|
      ensures Follows(history, others, |old(history)|, old(Contents()))
      ensures r == Failure(ErrNoIdleRunner) ==> forall id :: SawUnavailable(history, |old(history)|, id)
      ensures r.Failure? ==> r.error in {ErrNoIdleRunner, ErrBackend}
                             && |history| > |old(history)| && Contents() == history[|history| - 1]
      ensures r != Failure(ErrBackend) ==> Unfailed(fault, old(clock), clock)
      ensures r == Failure(ErrBackend) ==> fault(clock - 1) && (Alone() ==> Contents() == old(Contents()))
      ensures r != Failure(ErrBackend) && Alone() ==>
                && r == AcquireResult(old(Contents()), randHex(old(clock)), sessionID)
                && Contents() == AcquireTable(old(Contents()), randHex(old(clock)), sessionID)
    {
      UnfailedMore(fault, |history|, |history|);
      var tried: seq<string> := [];
      var start := randHex(clock);
      ghost var since, first, t0 := |history|, |attempts|, Contents();
      var segments := [Above, UpTo];
      for s := 0 to 2
        invariant Scanning(since, first, tried, t0) && old(history) <= history && old(attempts) <= attempts
        invariant s >= 1 ==> UpToDate() && |history| > since && SegmentUnavailable(history, since, Above, start)
        invariant s == 2 ==> SegmentUnavailable(history, since, UpTo, start)
      {
        var answer;
        answer, tried := ScanSegment(segments[s], start, sessionID, tried, since, first, t0);
        if answer.Failure? { return Failure(answer.error); }
        if answer.value.Some? {
          GrantedHost(history, others, since, t0, answer.value.value, sessionID, Contents());
          if Alone() { GrantTable(t0, history, since, start, sessionID, answer.value.value, Contents()); }
          return Success(answer.value.value);
        }
      }
      if Alone() { NothingToPick(t0, history, since, start); }
      forall id ensures SawUnavailable(history, since, id) {
        assert InSegment(if Less(start, id) then Above else UpTo, start, id);
      }
      return Failure(ErrNoIdleRunner);
    }
  }
}
