/** Sessions on top of the repository: creation with health checks, resolution, lookup, closing. */
module BrokerService {
  import opened Text
  import opened RunnerTable
  import opened RunnerHistory
  import opened RunnerScan
  import opened Traces
  import opened BrokerRepository
  import opened BrokerTypes

  /** A check fails either because the runner is unhealthy or because the request's context ended. */
  datatype Verdict = Healthy | Unhealthy | Canceled

  /** A health check; `at` requests had been made before it, so that is the number of the one that follows. */
  datatype Check = Check(id: string, host: string, verdict: Verdict, at: nat)

  datatype CreateSessionResult = CreateSessionResult(sessionId: string, sessionHex: string, runner: Runner)

  // ---- what one createSession may do to the table ----

  function Checked(log: seq<Check>): set<string> {
    set i | 0 <= i < |log| :: log[i].id
  }

  /** Every check was of a different initially idle runner, and failed on health. */
  ghost predicate AllFailed(t0: Table, log: seq<Check>) {
    && (forall i | 0 <= i < |log| ::
        log[i].verdict == Unhealthy && log[i].id in t0 && t0[log[i].id] == Idle(log[i].host))
    && (forall i, j | 0 <= i < j < |log| :: log[i].id != log[j].id)
  }

  /** All checks but the last failed; the last runner is held busy under `session`, the failed ones are gone. */
  ghost predicate HeldAtEnd(t0: Table, t1: Table, session: string, log: seq<Check>, verdict: Verdict) {
    && log != []
    && var (failed, last) := (log[..|log| - 1], log[|log| - 1]);
    && AllFailed(t0, failed)
    && last.verdict == verdict && last.id !in Checked(failed)
    && last.id in t0 && t0[last.id] == Idle(last.host)
    && t1 == (t0 - Checked(failed))[last.id := Busy(last.host, session)]
  }

  ghost predicate Purged(t0: Table, t1: Table, log: seq<Check>) {
    AllFailed(t0, log) && t1 == t0 - Checked(log)
  }

  /**
   When a createSession that fails leaves its last runner busy: its check ended with the context, or the delete after
   it is a request that fails.
   */
  predicate Leaks(faults: nat -> bool, log: seq<Check>) {
    log != [] && var last := log[|log| - 1];
    last.verdict == Canceled || (last.verdict == Unhealthy && faults(last.at))
  }

  /**
   The whole story of one undisturbed createSession from table `t0` to `t1`: a runner that passed its check is handed
   out and exactly the runners that failed are deleted; "no idle runner" only after every idle runner failed; a failed
   one leaves a runner busy, with a session nobody was told, exactly when it leaks.
   */
  ghost predicate Creation(t0: Table, t1: Table, session: string, sessionHex: string, faults: nat -> bool,
                           log: seq<Check>, r: Outcome<CreateSessionResult>)
  {
    match r
    case Ok(res) =>
      && HeldAtEnd(t0, t1, session, log, Healthy)
      && var last := log[|log| - 1];
      && res == CreateSessionResult(session, sessionHex, Runner(last.id, StateBusy, session, last.host))
    case Err(e) =>
      if Leaks(faults, log) then
        && e == (if log[|log| - 1].verdict == Canceled then ContextEnded else BackendFailed)
        && HeldAtEnd(t0, t1, session, log, log[|log| - 1].verdict)
      else
        && Purged(t0, t1, log)
        && (e == BackendFailed || (e == NoIdleRunner && Checked(log) == IdleIds(t0)))
  }

  /** Of the requests from `since` up to `n` the last failed. */
  predicate LastFailed(faults: nat -> bool, since: nat, n: nat) {
    since < n && faults(n - 1)
  }

  /** The runner a createSession leaves busy with its session: the one it answers, or the one that leaks. */
  function Kept(faults: nat -> bool, log: seq<Check>, r: Outcome<CreateSessionResult>): Option<string> {
    if log != [] && (r.Ok? || Leaks(faults, log)) then Some(log[|log| - 1].id) else None
  }

  lemma HeldHolds(t0: Table, t1: Table, session: string, log: seq<Check>, verdict: Verdict)
    requires HeldAtEnd(t0, t1, session, log, verdict)
    ensures Holds(t1, log[|log| - 1].id, session)
  {
  }

  /** A failed createSession leaves a runner busy that was not busy before exactly when it leaks. */
  lemma LeakExactly(t0: Table, t1: Table, session: string, sessionHex: string, faults: nat -> bool,
                    log: seq<Check>, e: ServiceError)
    requires Creation(t0, t1, session, sessionHex, faults, log, Err(e))
    ensures Leaks(faults, log) <==> exists id :: id in t1 && t1[id].Busy? && !(id in t0 && t0[id].Busy?)
    ensures Leaks(faults, log) ==> Holds(t1, log[|log| - 1].id, session)
  {
    if Leaks(faults, log) {
      HeldHolds(t0, t1, session, log, log[|log| - 1].verdict);
    }
  }

  // ---- one createSession among other brokers ----

  /** Runners that failed their check and whose delete went through. */
  ghost predicate Dropped(faults: nat -> bool, log: seq<Check>) {
    forall i | 0 <= i < |log| :: log[i].verdict == Unhealthy && !faults(log[i].at)
  }

  /**
   What a createSession among other brokers says, from its request `since` on: the runner handed out was idle when it
   was acquired, passed its check and is busy with the session; "no idle runner" means every id was seen unavailable;
   an ended context leaves its runner busy; every runner before the last was dropped.
   */
  ghost predicate Attempt(history: seq<Table>, since: nat, after: Table, session: string, sessionHex: string,
                          faults: nat -> bool, log: seq<Check>, r: Outcome<CreateSessionResult>)
  {
    && (log != [] ==> Dropped(faults, log[..|log| - 1]))
    && match r
       case Ok(res) =>
         && log != [] && res.sessionId == session && res.sessionHex == sessionHex
         && log[|log| - 1] == Check(res.runner.runnerId, res.runner.privateHost, Healthy, |history|)
         && Granted(history, since, res.runner, session, after)
       case Err(NoIdleRunner) => Dropped(faults, log) && forall id :: SawUnavailable(history, since, id)
       case Err(ContextEnded) => log != [] && log[|log| - 1].verdict == Canceled
           && Holds(after, log[|log| - 1].id, session)
       case Err(BackendFailed) => Dropped(faults, log) || (Leaks(faults, log) && log[|log| - 1].verdict == Unhealthy)
       case Err(_) => false
  }

  lemma GrantedSince(history: seq<Table>, since: nat, later: nat, r: Runner, session: string, after: Table)
    requires since <= later && Granted(history, later, r, session, after)
    ensures Granted(history, since, r, session, after) && Holds(after, r.runnerId, session)
  {
    var k :| later <= k < |history| && r.runnerId in history[k] && history[k][r.runnerId] == Idle(r.privateHost);
  }

  lemma ReadSince(history: seq<Table>, others: nat -> seq<Op>, since: nat, later: nat, r: Runner)
    requires since <= later && HostRead(history, others, later, r)
    ensures HostRead(history, others, since, r)
  {
    var k :| later <= k && HostReadAt(history, others, r, k);
  }

  lemma SeenSince(history: seq<Table>, since: nat, later: nat)
    requires since <= later && forall id :: SawUnavailable(history, later, id)
    ensures forall id :: SawUnavailable(history, since, id)
  {
    forall id ensures SawUnavailable(history, since, id) {
      assert SawUnavailable(history, later, id);
    }
  }

  lemma OneMoreCheck(faults: nat -> bool, log: seq<Check>, last: Check)
    requires Dropped(faults, log)
    ensures var all := log + [last]; all[..|all| - 1] == log && all[|all| - 1] == last
    ensures Leaks(faults, log + [last]) <==> last.verdict == Canceled || (last.verdict == Unhealthy && faults(last.at))
    ensures Dropped(faults, log + [last]) <==> last.verdict == Unhealthy && !faults(last.at)
  {
    assert (log + [last])[|log|] == last;
  }

  lemma DroppedStart(faults: nat -> bool, log: seq<Check>)
    ensures Dropped(faults, [])
    ensures Dropped(faults, log) ==> !Leaks(faults, log) && (log != [] ==> Dropped(faults, log[..|log| - 1]))
  {
  }

  /** An acquire that finds its runner leaves fewer idle ones once nobody registers, and nobody else on its session. */
  lemma AfterAcquire(history: seq<Table>, others: nat -> seq<Op>, since: nat, t: Table, r: Runner, session: string,
                     after: Table)
    requires Granted(history, since, r, session, after) && Follows(history, others, since, t)
    ensures (forall m: nat, op | since <= m && op in others(m) :: !op.Put?) ==> |IdleIds(after)| < |IdleIds(t)|
    ensures (forall m, op | op in others(m) :: !(op.Assign? && op.session == session)) && NobodyHolds(t, session) ==>
              AtMost(after, session, r.runnerId)
  {
    var n := |history| - 1;
    if forall m: nat, op | since <= m && op in others(m) :: !op.Put? {
      IdleOnlyShrinks(history, others, since, t, n);
      assert IdleIds(after) == IdleIds(history[n]) - {r.runnerId} && r.runnerId in IdleIds(history[n]);
      Smaller(IdleIds(after), IdleIds(t));
    }
    if (forall m, op | op in others(m) :: !(op.Assign? && op.session == session)) && NobodyHolds(t, session) {
      StillNobody(history, others, since, t, session, n);
      assert forall x | Holds(after, x, session) :: x == r.runnerId || Holds(history[n], x, session);
    }
  }

  lemma Smaller(a: set<string>, b: set<string>)
    requires a < b
    ensures |a| < |b|
  {
    NoLarger(a, b);
    var x :| x in b && x !in a;
    NoLarger(a, b - {x});
  }

  lemma {:induction false} NoLarger(a: set<string>, b: set<string>)
    requires a <= b
    ensures |a| <= |b|
  {
    if a != {} {
      var x :| x in a;
      NoLarger(a - {x}, b - {x});
    }
  }

  /** The delete that follows keeps both gains. */
  lemma AfterDelete(t: Table, ops: seq<Op>, id: string, session: string)
    ensures (forall op | op in ops :: !op.Put?) ==> |IdleIds(ApplyAll(t, ops) - {id})| <= |IdleIds(t)|
    ensures (forall op | op in ops :: !(op.Assign? && op.session == session)) && AtMost(t, session, id) ==>
              NobodyHolds(ApplyAll(t, ops) - {id}, session)
  {
    if forall op | op in ops :: !op.Put? {
      IdleShrinks(t, ops);
      NoLarger(IdleIds(ApplyAll(t, ops) - {id}), IdleIds(t));
    }
    if forall op | op in ops :: !(op.Assign? && op.session == session) {
      HoldersShrink(t, ops, session);
      assert forall x | Holds(ApplyAll(t, ops) - {id}, x, session) :: Holds(ApplyAll(t, ops), x, session);
    }
  }

  /** Only `id` holds the session, if anyone does. */
  ghost predicate AtMost(t: Table, session: string, id: string) {
    forall x | Holds(t, x, session) :: x == id
  }

  lemma CheckedGrows(log: seq<Check>, c: Check)
    ensures Checked(log + [c]) == Checked(log) + {c.id}
  {
    assert forall i | 0 <= i < |log| :: (log + [c])[i] == log[i];
    forall id | id in Checked(log + [c]) ensures id in Checked(log) + {c.id} {
      var i :| 0 <= i < |log + [c]| && (log + [c])[i].id == id;
      if i < |log| { assert log[i].id == id; }
    }
    forall id | id in Checked(log) ensures id in Checked(log + [c]) {
      var i :| 0 <= i < |log| && log[i].id == id;
      assert (log + [c])[i].id == id;
    }
    assert (log + [c])[|log|] == c;
  }

  lemma PurgeLast(t0: Table, t: Table, session: string, failed: seq<Check>, last: Check)
    requires Purged(t0, t, failed) && last.id in t && t[last.id] == Idle(last.host) && last.verdict == Unhealthy
    ensures Purged(t0, Apply(t, Assign(last.id, session)) - {last.id}, failed + [last])
  {
    CheckedGrows(failed, last);
    forall i | 0 <= i < |failed| ensures failed[i].id != last.id {
      assert failed[i].id in Checked(failed);
    }
  }

  lemma PurgedAll(t0: Table, t: Table, log: seq<Check>)
    requires Purged(t0, t, log) && IdleIds(t) == {}
    ensures Checked(log) == IdleIds(t0)
  {
    forall id | id in IdleIds(t0) ensures id in Checked(log) {
      assert id !in IdleIds(t);
    }
  }

  /** The same with the repository's answer. */
  lemma HeldAlone(t0: Table, t: Table, held: Table, session: string, failed: seq<Check>, last: Check, r: Result<Runner>)
    requires Purged(t0, t, failed) && AloneAnswer(t, held, session, r) && r.Success?
    requires last.id == r.value.runnerId && last.host == r.value.privateHost
    ensures HeldAtEnd(t0, held, session, failed + [last], last.verdict)
    ensures last.verdict == Unhealthy ==> Purged(t0, held - {last.id}, failed + [last])
  {
    if last.verdict == Unhealthy { PurgeLast(t0, t, session, failed, last); }
  }

  lemma NothingLands(t: Table)
    ensures ApplyAll(t, []) == t
  {
  }

  /** A createSession that ends without acquiring. */
  lemma EndsEmpty(t0: Table, after: Table, history: seq<Table>, since: nat, session: string, sessionHex: string,
                  faults: nat -> bool, log: seq<Check>, e: ServiceError, alone: bool)
    requires Dropped(faults, log) && e in {NoIdleRunner, BackendFailed}
    requires e == NoIdleRunner ==> forall id :: SawUnavailable(history, since, id)
    requires alone ==> Purged(t0, after, log) && (e == NoIdleRunner ==> Checked(log) == IdleIds(t0))
    ensures Attempt(history, since, after, session, sessionHex, faults, log, Err(e))
    ensures alone ==> Creation(t0, after, session, sessionHex, faults, log, Err(e))
  {
    hide Dropped, Leaks, Purged, Checked, IdleIds, SawUnavailable;
    DroppedStart(faults, log);
  }

  /** A createSession that ends with a runner acquired and checked. */
  lemma EndsHeld(t0: Table, after: Table, history: seq<Table>, since: nat, session: string, sessionHex: string,
                 faults: nat -> bool, log: seq<Check>, last: Check, runner: Runner,
                 r: Outcome<CreateSessionResult>, alone: bool)
    requires Dropped(faults, log)
    requires r.Ok? ==> last == Check(runner.runnerId, runner.privateHost, Healthy, |history|)
    requires match last.verdict
             case Healthy =>
               && r == Ok(CreateSessionResult(session, sessionHex, runner))
               && Granted(history, since, runner, session, after)
             case Canceled => r == Err(ContextEnded) && Holds(after, last.id, session)
             case Unhealthy => r == Err(BackendFailed) && faults(last.at)
    requires alone ==> HeldAtEnd(t0, after, session, log + [last], last.verdict)
    ensures Attempt(history, since, after, session, sessionHex, faults, log + [last], r)
    ensures alone ==> Creation(t0, after, session, sessionHex, faults, log + [last], r)
  {
    hide Dropped, Leaks, HeldAtEnd, Holds;
    OneMoreCheck(faults, log, last);
  }

  lemma CleanAtEnd(history: seq<Table>, others: nat -> seq<Op>, since: nat, t: Table)
    requires Follows(history, others, since, t) && since < |history|
    ensures Clean(t) ==> Clean(history[|history| - 1])
  {
    if Clean(t) { StillClean(history, others, since, t, |history| - 1); }
  }

  lemma CleanAcquire(history: seq<Table>, others: nat -> seq<Op>, since: nat, t: Table, r: Runner, session: string,
                     after: Table)
    requires Granted(history, since, r, session, after) && Follows(history, others, since, t)
    ensures Clean(t) ==> Clean(after)
  {
    CleanAtEnd(history, others, since, t);
  }

  lemma CleanDelete(t: Table, ops: seq<Op>, id: string)
    ensures Clean(t) ==> Clean(ApplyAll(t, ops)) && Clean(ApplyAll(t, ops) - {id})
  {
    if Clean(t) { CleanStays(t, ops); }
  }

  // ---- resolving ----

  /** What a resolve did: the record found for the presented session, its checks, its createSession if any. */
  datatype Story = Story(found: Option<string>, news: seq<Check>, created: Option<Outcome<CreateSessionResult>>)

  function Answer(created: Outcome<CreateSessionResult>, reassigned: bool): Outcome<ResolveResult> {
    match created
    case Err(e) => Err(e)
    case Ok(c) => Ok(ResolveResult(c.sessionId, c.sessionHex, c.runner.privateHost, true, reassigned))
  }

  ghost predicate CreatedFrom(t0: Table, t1: Table, stackPrefix: string, hex: Option<string>, faults: nat -> bool,
                              news: seq<Check>, created: Option<Outcome<CreateSessionResult>>, reassigned: bool,
                              r: Outcome<ResolveResult>)
  {
    && created.Some? && r == Answer(created.value, reassigned)
    && (hex.None? ==> created.value == Err(NoSessionId) && news == [] && t1 == t0)
    && (hex.Some? ==> Creation(t0, t1, Namespaced(stackPrefix, hex.value), hex.value, faults, news, created.value))
  }

  /** The answer for a session some record holds, by the verdict of that record's check. */
  ghost predicate Found(t0: Table, t1: Table, stackPrefix: string, sessionID: string, hex: Option<string>,
                        faults: nat -> bool, story: Story, r: Outcome<ResolveResult>)
    requires story.found.Some?
  {
    && Holds(t0, story.found.value, sessionID) && story.news != []
    && story.news[0].id == story.found.value && story.news[0].host == t0[story.found.value].host
    && match story.news[0].verdict
       case Healthy =>
         && t1 == t0 && |story.news| == 1 && story.created.None?
         && r == (match Cut(sessionID, SEPARATOR)
                  case None => Err(MissingPrefix)
                  case Some(parts) => Ok(ResolveResult(sessionID, parts.1, story.news[0].host, false, false)))
       case Canceled => t1 == t0 && |story.news| == 1 && story.created.None? && r == Err(ContextEnded)
       case Unhealthy =>
         if faults(story.news[0].at) then t1 == t0 && r == Err(BackendFailed) && story.created.None?
         else CreatedFrom(t0 - {story.found.value}, t1, stackPrefix, hex, faults, story.news[1..], story.created,
             true, r)
  }

  /** The whole story of one undisturbed resolve. */
  ghost predicate Resolution(t0: Table, t1: Table, stackPrefix: string, sessionID: string, hex: Option<string>,
                             faults: nat -> bool, story: Story, r: Outcome<ResolveResult>)
  {
    if story.found.Some? then Found(t0, t1, stackPrefix, sessionID, hex, faults, story, r)
    else if story.created.None? then r == Err(BackendFailed) && t1 == t0 && story.news == []
    else
      && (sessionID == "" || NobodyHolds(t0, sessionID))
      && CreatedFrom(t0, t1, stackPrefix, hex, faults, story.news, story.created, false, r)
  }

  /**
   The lookup half of a resolve among other brokers: what its first request found in the table `seen`, and the answer
   when that record's check passes or its context ends.
   */
  ghost predicate Looked(seen: Table, after: Table, sessionID: string, story: Story, r: Outcome<ResolveResult>) {
    match story.found
    case None => story.created.Some? ==> NobodyHolds(seen, sessionID)
    case Some(id) =>
      && Holds(seen, id, sessionID) && story.news != [] && story.news[0].id == id && story.news[0].host == seen[id].host
      && match story.news[0].verdict
         case Healthy =>
           && after == seen && |story.news| == 1 && story.created.None?
           && r == (match Cut(sessionID, SEPARATOR)
                    case None => Err(MissingPrefix)
                    case Some(parts) => Ok(ResolveResult(sessionID, parts.1, seen[id].host, false, false)))
         case Canceled => after == seen && |story.news| == 1 && story.created.None? && r == Err(ContextEnded)
         case Unhealthy => story.created.None? ==> r == Err(BackendFailed)
  }

  /** The whole of a resolve among other brokers, from its request `since` on. */
  ghost predicate Visit(history: seq<Table>, since: nat, after: Table, stackPrefix: string, sessionID: string,
                        hex: Option<string>, faults: nat -> bool, story: Story, r: Outcome<ResolveResult>)
  {
    && since <= |history|
    && (if sessionID == "" then story.found.None? && story.created.Some?
        else since < |history| && Looked(history[since], after, sessionID, story, r))
    && (story.found.None? && story.created.None? ==> r == Err(BackendFailed) && story.news == [])
    && (story.created.Some? ==>
          && r == Answer(story.created.value, story.found.Some?)
          && (hex.None? ==> story.created.value == Err(NoSessionId))
          && (hex.Some? ==>
                && (story.found.Some? ==> story.news != [])
                && Attempt(history, since, after, Namespaced(stackPrefix, hex.value), hex.value, faults,
                           if story.found.Some? then story.news[1..] else story.news, story.created.value)))
  }

  // ---- stickiness ----

  ghost predicate UniqueSessions(t: Table) {
    forall x, y, session | Holds(t, x, session) && Holds(t, y, session) :: x == y
  }

  /** Every session in this stack's store was issued by this stack. */
  ghost predicate Issued(t: Table, stackPrefix: string) {
    forall id, session | Holds(t, id, session) :: exists hex :: session == Namespaced(stackPrefix, hex)
  }

  ghost predicate Names(t: Table, stackPrefix: string, res: ResolveResult) {
    && (exists id :: Holds(t, id, res.sessionId) && t[id].host == res.runnerHost)
    && res.sessionId == Namespaced(stackPrefix, res.sessionHex)
  }

  lemma CreationIsSafe(t0: Table, t1: Table, stackPrefix: string, hex: string, faults: nat -> bool, news: seq<Check>,
                       r: Outcome<CreateSessionResult>)
    requires Creation(t0, t1, Namespaced(stackPrefix, hex), hex, faults, news, r)
    requires UniqueSessions(t0) && Issued(t0, stackPrefix) && Clean(t0)
    requires NobodyHolds(t0, Namespaced(stackPrefix, hex))
    ensures UniqueSessions(t1) && Issued(t1, stackPrefix) && Clean(t1)
    ensures r.Ok? ==> Holds(t1, r.value.runner.runnerId, Namespaced(stackPrefix, hex))
                      && t1[r.value.runner.runnerId].host == r.value.runner.privateHost
  {
    var session := Namespaced(stackPrefix, hex);
    forall id, s | Holds(t1, id, s)
        ensures Holds(t0, id, s) || (s == session && news != [] && id == news[|news| - 1].id) {}
    forall id, s | Holds(t1, id, s) ensures exists h :: s == Namespaced(stackPrefix, h) {
      if !Holds(t0, id, s) { assert s == Namespaced(stackPrefix, hex); }
    }
  }

  /** An answered resolve leaves a table in which exactly the answered runner holds the answered session. */
  lemma ResolutionNames(t0: Table, t1: Table, stackPrefix: string, sessionID: string, hex: Option<string>,
                        faults: nat -> bool, story: Story, r: Outcome<ResolveResult>)
    requires Resolution(t0, t1, stackPrefix, sessionID, hex, faults, story, r) && r.Ok?
    requires UniqueSessions(t0) && Issued(t0, stackPrefix) && Clean(t0) && SEPARATOR !in stackPrefix
    requires hex.Some? ==> NobodyHolds(t0, Namespaced(stackPrefix, hex.value))
    ensures Names(t1, stackPrefix, r.value) && UniqueSessions(t1) && Issued(t1, stackPrefix) && Clean(t1)
  {
    if story.created.Some? {
      var base := if story.found.Some? then t0 - {story.found.value} else t0;
      var news := if story.found.Some? then story.news[1..] else story.news;
      assert forall id, s | Holds(base, id, s) :: Holds(t0, id, s);
      CreationIsSafe(base, t1, stackPrefix, hex.value, faults, news, story.created.value);
      assert Holds(t1, story.created.value.value.runner.runnerId, r.value.sessionId);
    } else {
      var held :| sessionID == Namespaced(stackPrefix, held);
      SplitNamespaced(stackPrefix, held);
      assert Holds(t1, story.found.value, sessionID);
    }
  }

  /** Resolving an answered session finds its record, with the answered host. */
  lemma FoundAgain(t: Table, t': Table, stackPrefix: string, res: ResolveResult, hex: Option<string>,
                   faults: nat -> bool, again: Story, r: Outcome<ResolveResult>)
    requires Names(t, stackPrefix, res) && UniqueSessions(t) && Clean(t) && SEPARATOR !in stackPrefix
    requires Resolution(t, t', stackPrefix, res.sessionId, hex, faults, again, r)
    requires r == Err(BackendFailed) ==> again.found.Some?
    ensures again.found.Some? && again.news != [] && again.news[0].host == res.runnerHost
    ensures again.news[0].verdict == Healthy ==>
              t' == t && r == Ok(ResolveResult(res.sessionId, res.sessionHex, res.runnerHost, false, false))
  {
    SplitNamespaced(stackPrefix, res.sessionHex);
    var id :| Holds(t, id, res.sessionId) && t[id].host == res.runnerHost;
    assert !NobodyHolds(t, res.sessionId);
    assert res.sessionId != "";
  }

  lemma AttemptSince(history: seq<Table>, since: nat, later: nat, after: Table, session: string, hex: string,
                     faults: nat -> bool, news: seq<Check>, r: Outcome<CreateSessionResult>)
    requires since <= later && Attempt(history, later, after, session, hex, faults, news, r)
    ensures Attempt(history, since, after, session, hex, faults, news, r)
  {
    if r.Ok? {
      GrantedSince(history, since, later, r.value.runner, session, after);
    } else if r.error == NoIdleRunner {
      SeenSince(history, since, later);
    }
  }

  lemma AttemptAnswers(history: seq<Table>, since: nat, after: Table, session: string, hex: string,
                       faults: nat -> bool, news: seq<Check>, r: Outcome<CreateSessionResult>)
    requires Attempt(history, since, after, session, hex, faults, news, r)
    ensures r.Ok? ==> r.value.sessionId == session
    ensures r != Err(NoSessionId)
  {
  }

  lemma CleanLater(t: Table, ops: seq<Op>)
    ensures Clean(t) ==> Clean(ApplyAll(t, ops))
  {
    if Clean(t) { CleanStays(t, ops); }
  }

  // ---- stickiness among other brokers ----

  /** The runner an answered resolve is about. */
  function VisitedId(story: Story): string {
    if story.created.Some? && story.created.value.Ok? then story.created.value.value.runner.runnerId
    else if story.found.Some? then story.found.value else ""
  }

  /** How many session ids a resolve drew. */
  function Draws(story: Story): nat {
    if story.created.Some? then 1 else 0
  }

  /** The record `id`, and no other, holds the session. */
  ghost predicate OnlyHolder(t: Table, session: string, id: string) {
    Holds(t, id, session) && AtMost(t, session, id)
  }

  /** What an answered resolve names, whatever the others did meanwhile. */
  lemma VisitNames(t0: Table, ops: seq<Op>, history: seq<Table>, since: nat, after: Table, stackPrefix: string,
                   sessionID: string, hex: Option<string>, faults: nat -> bool, story: Story, r: Outcome<ResolveResult>)
    requires Visit(history, since, after, stackPrefix, sessionID, hex, faults, story, r) && r.Ok?
    requires sessionID != "" ==> since < |history| && history[since] == ApplyAll(t0, ops)
    requires forall op | op in ops :: !(op.Assign? && op.session == sessionID)
    requires UniqueSessions(t0) && Issued(t0, stackPrefix) && SEPARATOR !in stackPrefix
    requires story.created.Some? ==> AtMost(after, r.value.sessionId, VisitedId(story))
    ensures OnlyHolder(after, r.value.sessionId, VisitedId(story))
    ensures r.value.sessionId == Namespaced(stackPrefix, r.value.sessionHex) && r.value.sessionId != ""
    ensures !r.value.created ==> after[VisitedId(story)].host == r.value.runnerHost
  {
    if story.created.Some? {
      GrantedSince(history, since, since, story.created.value.value.runner, r.value.sessionId, after);
    } else {
      HoldersShrink(t0, ops, sessionID);
      assert Holds(t0, story.found.value, sessionID);
      var held :| sessionID == Namespaced(stackPrefix, held);
      SplitNamespaced(stackPrefix, held);
    }
  }

  /** A later resolve of the session finds that record as long as nobody deletes it or uses the session. */
  lemma VisitAgain(t: Table, ops: seq<Op>, id: string, history: seq<Table>, since: nat, after: Table,
                   stackPrefix: string, sessionHex: string, hex: Option<string>, faults: nat -> bool, story: Story,
                   r: Outcome<ResolveResult>)
    requires Visit(history, since, after, stackPrefix, Namespaced(stackPrefix, sessionHex), hex, faults, story, r)
    requires OnlyHolder(t, Namespaced(stackPrefix, sessionHex), id) && SEPARATOR !in stackPrefix
    requires since < |history| && history[since] == ApplyAll(t, ops)
    requires forall op | op in ops ::
        op != Remove(id) && !(op.Assign? && op.session == Namespaced(stackPrefix, sessionHex))
    requires r == Err(BackendFailed) ==> story.found.Some?
    ensures Holds(t, id, Namespaced(stackPrefix, sessionHex)) && story.found == Some(id)
    ensures story.news != [] && story.news[0].id == id && story.news[0].host == t[id].host
    ensures story.news[0].verdict == Healthy ==>
              && r == Ok(ResolveResult(Namespaced(stackPrefix, sessionHex), sessionHex, t[id].host, false, false))
              && after == ApplyAll(t, ops) && OnlyHolder(after, Namespaced(stackPrefix, sessionHex), id)
              && after[id] == t[id]
  {
    var session := Namespaced(stackPrefix, sessionHex);
    OpsKeepHolder(t, ops, id, session);
    SplitNamespaced(stackPrefix, sessionHex);
    assert Holds(history[since], id, session);
    assert session != "";
  }

  class BrokerService {
    const repo: Repository
    const stackPrefix: string
    /** The verdict of the n-th health check, given the host it asks. */
    const health: (nat, string) -> Verdict
    /** The n-th draw of the session id generator; None when the random source fails. */
    const sessionFn: nat -> Option<string>
    var checks: nat
    var draws: nat
    ghost var log: seq<Check>

    ghost predicate Valid() reads this, repo.Footprint() {
      && repo.Valid() && this !in repo.Footprint() && stackPrefix != ""
      && checks == |log| && forall i | 0 <= i < |log| :: log[i].verdict == health(i, log[i].host)
    }

    constructor (repo: Repository, stackPrefix: string, health: (nat, string) -> Verdict,
                 sessionFn: nat -> Option<string>)
      requires repo.Valid() && stackPrefix != ""
      ensures Valid() && log == [] && checks == draws == 0
      ensures this.repo == repo && this.stackPrefix == stackPrefix && this.health == health
          && this.sessionFn == sessionFn
    {
      this.repo, this.stackPrefix, this.health, this.sessionFn := repo, stackPrefix, health, sessionFn;
      checks, draws, log := 0, 0, [];
    }

    method CheckHealth(runner: Runner) returns (v: Verdict)
      requires Valid()
      modifies this
      ensures Valid()
      ensures v == health(old(checks), runner.privateHost) && checks == old(checks) + 1 && draws == old(draws)
      ensures log == old(log) + [Check(runner.runnerId, runner.privateHost, v, |repo.History()|)]
    {
      v := health(checks, runner.privateHost);
      checks := checks + 1;
      log := log + [Check(runner.runnerId, runner.privateHost, v, |repo.History()|)];
    }

    ghost function NextSession(): string
      reads this
      requires sessionFn(draws).Some?
    {
      Namespaced(stackPrefix, sessionFn(draws).value)
    }

    /** Nobody holds the session of that hex. */
    ghost predicate Unheld(t: Table, hex: Option<string>) {
      hex.Some? && NobodyHolds(t, Namespaced(stackPrefix, hex.value))
    }

    /** What the checks of a creation so far say: all dropped, and nothing else changed if nobody else acts. */
    ghost predicate SoFar(t0: Table, news: seq<Check>) reads this, repo.Footprint() {
      Dropped(repo.Faults(), news) && (repo.Alone() ==> Purged(t0, repo.Contents(), news))
    }

    /** Nobody else acts on the DynamoDB table and the scan begun by request `n` finds its runner without wrapping. */
    ghost predicate Plain(t: Table, n: nat) {
      repo.Alone() && repo.Dynamo? && Direct(t, repo.dynamo.randHex(n))
    }

    /** Then the requests are known: a page, an assignment, and after the first check the delete is number n + 2. */
    ghost predicate FirstTurn(t: Table, n: nat, news: seq<Check>, r: Option<Outcome<CreateSessionResult>>) {
      Plain(t, n) ==>
        if news != [] then news[0].at == n + 2
        else r.Some? && r.value.Err? && (repo.Faults()(n) || repo.Faults()(n + 1))
    }

    lemma OthersMean(session: string, n: nat)
      ensures repo.Alone() ==> repo.Others()(n) == []
      ensures repo.SettledFrom(n) ==> forall m: nat, op | n <= m && op in repo.Others()(m) :: !op.Put?
      ensures repo.Ours(session) ==> forall m, op | op in repo.Others()(m) :: !(op.Assign? && op.session == session)
    {
    }

    /** createSession's acquire, with what it means for the table. */
    method Acquire(sessionID: string, ghost since: nat, ghost t0: Table, ghost news: seq<Check>)
      returns (r: Result<Runner>, ghost did: seq<Option<Op>>)
      requires Valid() && since <= |repo.History()| && SoFar(t0, news)
      modifies repo.Footprint()
      ensures Valid() && old(repo.History()) <= repo.History() && |repo.History()| > |old(repo.History())|
      ensures r.Failure? ==> r.error in {ErrNoIdleRunner, ErrBackend}
      ensures r == Failure(ErrBackend) ==> repo.Faults()(|repo.History()| - 1)
      ensures r != Failure(ErrBackend) ==> Unfailed(repo.Faults(), |old(repo.History())|, |repo.History()|)
      ensures r == Failure(ErrNoIdleRunner) ==> forall id :: SawUnavailable(repo.History(), since, id)
      ensures r.Failure? && repo.Alone() ==>
                Purged(t0, repo.Contents(), news) && (r.error == ErrNoIdleRunner ==> Checked(news) == IdleIds(t0))
      ensures r.Success? ==> Granted(repo.History(), since, r.value, sessionID, repo.Contents())
      ensures r.Success? ==> Holds(repo.Contents(), r.value.runnerId, sessionID)
      ensures r.Success? ==> HostRead(repo.History(), repo.Others(), |old(repo.History())|, r.value)
      ensures r.Success? && repo.Alone() ==>
                AloneAnswer(old(repo.Contents()), repo.Contents(), sessionID, r)
      ensures Plain(old(repo.Contents()), |old(repo.History())|) ==>
                && |repo.History()| <= |old(repo.History())| + 2
                && (r.Success? ==> |repo.History()| == |old(repo.History())| + 2)
                && (r.Failure? ==> r.error == ErrBackend)
      ensures r.Success? && repo.SettledFrom(|old(repo.History())|) ==>
                |IdleIds(repo.Contents())| < |IdleIds(old(repo.Contents()))|
      ensures r.Success? && repo.Ours(sessionID) && old(NobodyHolds(repo.Contents(), sessionID)) ==>
                AtMost(repo.Contents(), sessionID, r.value.runnerId)
      ensures old(Clean(repo.Contents())) ==> Clean(repo.Contents())
      ensures Trace(repo.History(), repo.Others(), |old(repo.History())|, old(repo.Contents()), did, repo.Contents())
      ensures OneByOne(did, sessionID, None, if r.Success? then Some(r.value.runnerId) else None)
    {
      hide Purged, IdleIds, Checked, Apply, ApplyAll, Follows, HostReadAt, HostRead, Granted, AtMost, NobodyHolds,
           SawUnavailable, Dropped, Clean, Unfailed, Trace, OneByOne;
      hide Repository.Contents, Repository.Alone, Repository.Valid, Repository.History, Repository.Faults,
           Repository.Others, Repository.Ours, Repository.SettledFrom;
      ghost var t, later := repo.Contents(), |repo.History()|;
      r := repo.AcquireIdle(sessionID);
      did := AcquireTrace(repo.History(), repo.Others(), later, t, sessionID, r, repo.Contents());
      OthersMean(sessionID, later);
      if r.Success? {
        GrantedSince(repo.History(), since, later, r.value, sessionID, repo.Contents());
        AfterAcquire(repo.History(), repo.Others(), later, t, r.value, sessionID, repo.Contents());
        CleanAcquire(repo.History(), repo.Others(), later, t, r.value, sessionID, repo.Contents());
      } else {
        CleanAtEnd(repo.History(), repo.Others(), later, t);
        if r.error == ErrNoIdleRunner { SeenSince(repo.History(), since, later); }
        if repo.Alone() && r.error == ErrNoIdleRunner { PurgedAll(t0, t, news); }
      }
    }

    lemma AcquireTrace(history: seq<Table>, others: nat -> seq<Op>, since: nat, t: Table, session: string,
                       r: Result<Runner>, after: Table) returns (did: seq<Option<Op>>)
      requires Follows(history, others, since, t) && since < |history|
      requires r.Success? ==> Granted(history, since, r.value, session, after)
      requires r.Failure? ==> after == history[|history| - 1]
      ensures Trace(history, others, since, t, did, after)
      ensures OneByOne(did, session, None, if r.Success? then Some(r.value.runnerId) else None)
    {
      var op := if r.Success? then Some(Assign(r.value.runnerId, session)) else None;
      var kept := if r.Success? then Some(r.value.runnerId) else None;
      FollowsTrace(history, others, since, t, op);
      assert [op][1..] == [];
      LastOneByOne(|history| - 1 - since, op, session, None, kept);
      did := Last(|history| - 1 - since, op);
    }

    /** The check of an acquired runner, and the delete of one that fails it; None means try again. */
    method KeepOrDrop(runner: Runner, sessionID: string, sessionHex: string, ghost since: nat, ghost t0: Table,
                      ghost news: seq<Check>, ghost t: Table)
      returns (r: Option<Outcome<CreateSessionResult>>, ghost last: Check, ghost did: seq<Option<Op>>)
      requires Valid() && since <= |repo.History()| && Dropped(repo.Faults(), news)
      requires Granted(repo.History(), since, runner, sessionID, repo.Contents())
      requires Holds(repo.Contents(), runner.runnerId, sessionID)
      requires repo.Alone() ==>
                 Purged(t0, t, news) && AloneAnswer(t, repo.Contents(), sessionID, Success(runner))
      modifies this, repo.Footprint()
      ensures Valid() && draws == old(draws) && log == old(log) + [last]
      ensures last.id == runner.runnerId && last.host == runner.privateHost && last.at == |old(repo.History())|
      ensures old(repo.History()) <= repo.History()
      ensures r.Some? && r.value.Ok? ==>
                repo.History() == old(repo.History()) && r.value.value.runner == runner
      ensures r.Some? ==>
                && Attempt(repo.History(), since, repo.Contents(), sessionID, sessionHex, repo.Faults(), news + [last],
                           r.value)
                && (repo.Alone() ==>
                      Creation(t0, repo.Contents(), sessionID, sessionHex, repo.Faults(), news + [last], r.value))
      ensures r == Some(Err(BackendFailed)) ==>
                |repo.History()| > |old(repo.History())| && repo.Faults()(|repo.History()| - 1)
      ensures r.None? ==> |repo.History()| > |old(repo.History())| && !repo.Faults()(|repo.History()| - 1)
      ensures r.None? ==> SoFar(t0, news + [last])
      ensures r.None? && repo.SettledFrom(|old(repo.History())|) ==>
                |IdleIds(repo.Contents())| <= |IdleIds(old(repo.Contents()))|
      ensures repo.Ours(sessionID) && old(AtMost(repo.Contents(), sessionID, runner.runnerId)) ==>
                && (r.None? ==> NobodyHolds(repo.Contents(), sessionID))
                && (r.Some? && r.value.Ok? ==> AtMost(repo.Contents(), sessionID, r.value.value.runner.runnerId))
      ensures old(Clean(repo.Contents())) ==> Clean(repo.Contents())
      ensures Trace(repo.History(), repo.Others(), |old(repo.History())|, old(repo.Contents()), did, repo.Contents())
      ensures OneByOne(did, sessionID, Some(runner.runnerId), if r.None? then None else Some(runner.runnerId))
      ensures r.Some? ==> r.value.Ok? || Leaks(repo.Faults(), news + [last])
    {
      hide HeldAtEnd, Purged, IdleIds, Checked, Apply, ApplyAll, Dropped, Granted, AtMost, NobodyHolds, Leaks,
           SawUnavailable, Holds, Attempt, Creation, Clean, Trace, OneByOne, HostRead;
      hide Repository.Contents, Repository.Alone, Repository.Valid, Repository.History, Repository.Faults,
           Repository.Others, Repository.Ours, Repository.SettledFrom;
      ghost var held, n := repo.Contents(), |repo.History()|;
      var verdict := CheckHealth(runner);
      last := Check(runner.runnerId, runner.privateHost, verdict, n);
      OneMoreCheck(repo.Faults(), news, last);
      if repo.Alone() { HeldAlone(t0, t, held, sessionID, news, last, Success(runner)); }
      did := [];
      TraceNone(repo.History(), repo.Others(), held, sessionID, Some(runner.runnerId));
      if verdict == Healthy {
        r := Some(Ok(CreateSessionResult(sessionID, sessionHex, runner)));
        EndsHeld(t0, held, repo.History(), since, sessionID, sessionHex, repo.Faults(), news, last, runner, r.value,
                 repo.Alone());
        return;
      } else if verdict == Canceled {
        r := Some(Err(ContextEnded));
        EndsHeld(t0, held, repo.History(), since, sessionID, sessionHex, repo.Faults(), news, last, runner, r.value,
                 repo.Alone());
        return;
      }
      OthersMean(sessionID, n);
      AfterDelete(held, repo.Others()(n), runner.runnerId, sessionID);
      CleanDelete(held, repo.Others()(n), runner.runnerId);
      NothingLands(held);
      var deleted := repo.Delete(runner.runnerId);
      did := [if deleted.Success? then Some(Remove(runner.runnerId)) else None];
      DeleteTrace(repo.History(), repo.Others(), held, runner.runnerId, sessionID, did[0], repo.Contents());
      if deleted.Failure? {
        r := Some(Err(BackendFailed));
        EndsHeld(t0, repo.Contents(), repo.History(), since, sessionID, sessionHex, repo.Faults(), news, last, runner,
                 r.value, repo.Alone());
        return;
      }
      r := None;
    }

    lemma TraceNone(history: seq<Table>, others: nat -> seq<Op>, t: Table, session: string, holds: Option<string>)
      ensures Trace(history, others, |history|, t, [], t) && OneByOne([], session, holds, holds)
    {
    }

    lemma DeleteTrace(history: seq<Table>, others: nat -> seq<Op>, t: Table, id: string, session: string,
                      op: Option<Op>, after: Table)
      requires history != [] && op in {None, Some(Remove(id))}
      requires history[|history| - 1] == ApplyAll(t, others(|history| - 1))
      requires after == if op.None? then history[|history| - 1] else history[|history| - 1] - {id}
      ensures Trace(history, others, |history| - 1, t, [op], after)
      ensures OneByOne([op], session, Some(id), if op.None? then Some(id) else None)
    {
      assert [op][1..] == [];
    }

    /** One turn of createSession's loop: acquire, check, and delete what failed; None means try again. */
    method TryRunner(sessionID: string, sessionHex: string, ghost since: nat, ghost t0: Table, ghost news: seq<Check>)
      returns (r: Option<Outcome<CreateSessionResult>>, ghost more: seq<Check>, ghost did: seq<Option<Op>>)
      requires Valid() && since <= |repo.History()| && SoFar(t0, news)
      modifies this, repo.Footprint()
      ensures Valid() && draws == old(draws) && log == old(log) + more
      ensures old(repo.History()) <= repo.History() && |repo.History()| > |old(repo.History())|
      ensures r.Some? ==>
                && Attempt(repo.History(), since, repo.Contents(), sessionID, sessionHex, repo.Faults(), news + more,
                    r.value)
                && (repo.Alone() ==>
                      Creation(t0, repo.Contents(), sessionID, sessionHex, repo.Faults(), news + more, r.value))
      ensures r.Some? && r.value.Ok? ==>
                HostRead(repo.History(), repo.Others(), |old(repo.History())|, r.value.value.runner)
      ensures r == Some(Err(BackendFailed)) ==> repo.Faults()(|repo.History()| - 1)
      ensures r.None? ==> !repo.Faults()(|repo.History()| - 1)
      ensures r.None? ==> more != [] && SoFar(t0, news + more)
      ensures r.None? && repo.SettledFrom(|old(repo.History())|) ==>
                |IdleIds(repo.Contents())| < |IdleIds(old(repo.Contents()))|
      ensures repo.Ours(sessionID) && old(NobodyHolds(repo.Contents(), sessionID)) ==>
                && (r.None? ==> NobodyHolds(repo.Contents(), sessionID))
                && (r.Some? && r.value.Ok? ==> AtMost(repo.Contents(), sessionID, r.value.value.runner.runnerId))
      ensures old(Clean(repo.Contents())) ==> Clean(repo.Contents())
      ensures FirstTurn(old(repo.Contents()), |old(repo.History())|, more, r)
      ensures Trace(repo.History(), repo.Others(), |old(repo.History())|, old(repo.Contents()), did, repo.Contents())
      ensures OneByOne(did, sessionID, None, if r.None? then None else Kept(repo.Faults(), news + more, r.value))
    {
      hide HeldAtEnd, Purged, IdleIds, Checked, Apply, ApplyAll, Dropped, Granted, AtMost, NobodyHolds, Leaks,
           SawUnavailable, Holds, Attempt, Creation, Clean, Trace, OneByOne, HostRead;
      hide Repository.Contents, Repository.Alone, Repository.Valid, Repository.History, Repository.Faults,
           Repository.Others, Repository.Ours, Repository.SettledFrom;
      ghost var t, n := repo.Contents(), |repo.History()|;
      assert news + [] == news;
      DroppedStart(repo.Faults(), news);
      ghost var done, gone;
      var acquired;
      acquired, done := Acquire(sessionID, since, t0, news);
      if acquired.Failure? {
        var e := if acquired.error == ErrBackend then BackendFailed else NoIdleRunner;
        EndsEmpty(t0, repo.Contents(), repo.History(), since, sessionID, sessionHex, repo.Faults(), news, e,
            repo.Alone());
        return Some(Err(e)), [], done;
      }
      ghost var held, h := repo.Contents(), repo.History();
      if repo.SettledFrom(n) { SettledLater(n, |h|); }
      ghost var last;
      r, last, gone := KeepOrDrop(acquired.value, sessionID, sessionHex, since, t0, news, t);
      more, did := [last], done + gone;
      TraceOn(h, repo.History(), repo.Others(), n, t, done, held, gone, repo.Contents());
      OneByOneOn(done, gone, sessionID, None, Some(acquired.value.runnerId),
                 if r.None? then None else Some(acquired.value.runnerId));
    }

    /** createSession's loop. */
    method KeepTrying(sessionID: string, sessionHex: string)
      returns (r: Outcome<CreateSessionResult>, ghost news: seq<Check>, ghost did: seq<Option<Op>>)
      requires Valid() && repo.Ends()
      modifies this, repo.Footprint()
      ensures Valid() && log == old(log) + news && draws == old(draws)
      ensures old(repo.History()) <= repo.History()
      ensures Attempt(repo.History(), |old(repo.History())|, repo.Contents(), sessionID, sessionHex, repo.Faults(),
                      news, r)
      ensures repo.Alone() ==>
                Creation(old(repo.Contents()), repo.Contents(), sessionID, sessionHex, repo.Faults(), news, r)
      ensures r.Ok? ==> HostRead(repo.History(), repo.Others(), |old(repo.History())|, r.value.runner)
      ensures Trace(repo.History(), repo.Others(), |old(repo.History())|, old(repo.Contents()), did, repo.Contents())
      ensures OneByOne(did, sessionID, None, Kept(repo.Faults(), news, r))
      ensures r == Err(BackendFailed) ==> LastFailed(repo.Faults(), |old(repo.History())|, |repo.History()|)
      ensures r.Ok? && repo.Ours(sessionID) && NobodyHolds(old(repo.Contents()), sessionID) ==>
                AtMost(repo.Contents(), sessionID, r.value.runner.runnerId)
      ensures old(Clean(repo.Contents())) ==> Clean(repo.Contents())
      ensures FirstTurn(old(repo.Contents()), |old(repo.History())|, news, Some(r))
    {
      hide Plain, FirstTurn, Attempt, Creation, IdleIds, Namespaced, AtMost, NobodyHolds, Purged, Dropped, Clean,
           Trace, OneByOne, Kept, SoFar, HostRead;
      hide Repository.Contents, Repository.Alone, Repository.Valid, Repository.History, Repository.Faults,
           Repository.Others, Repository.Ours, Repository.SettledFrom, Repository.FailsFrom;
      ghost var t0, since := repo.Contents(), |repo.History()|;
      news, did := [], [];
      ghost var end: nat :| repo.SettledFrom(end) || repo.FailsFrom(end);
      SoFarStart();
      TraceNone(repo.History(), repo.Others(), t0, sessionID, None);
      while true
        invariant Valid() && log == old(log) + news && draws == old(draws)
        invariant old(repo.History()) <= repo.History() && SoFar(t0, news)
        invariant repo.Ours(sessionID) && NobodyHolds(t0, sessionID) ==> NobodyHolds(repo.Contents(), sessionID)
        invariant Clean(t0) ==> Clean(repo.Contents())
        invariant news == [] ==> repo.Contents() == t0 && |repo.History()| == since
        invariant news != [] ==> forall r' :: FirstTurn(t0, since, news, r')
        invariant Trace(repo.History(), repo.Others(), since, t0, did, repo.Contents())
        invariant OneByOne(did, sessionID, None, None)
        decreases if |repo.History()| < end then end - |repo.History()| else 0, |IdleIds(repo.Contents())|
      {
        var answer;
        ghost var more, effects, n, h, t := [], [], |repo.History()|, repo.History(), repo.Contents();
        if end <= n { SettledLater(end, n); }
        FailsThen(n);
        answer, more, effects := TryRunner(sessionID, sessionHex, since, t0, news);
        FirstTurnOn(t0, since, news, more, answer);
        TraceOn(h, repo.History(), repo.Others(), since, t0, did, t, effects, repo.Contents());
        news := news + more;
        OneByOneOn(did, effects, sessionID, None, None,
                   if answer.None? then None else Kept(repo.Faults(), news, answer.value));
        did := did + effects;
        if answer.Some? {
          if answer.value.Ok? { ReadSince(repo.History(), repo.Others(), since, n, answer.value.value.runner); }
          return answer.value, news, did;
        }
      }
    }

    /**
     createSession ends as soon as nobody registers runners any more or its context ends; a pool that is for ever
     refilled with runners failing their check would keep it busy. `did` is what its requests did to the table.
     */
    method CreateSession() returns (r: Outcome<CreateSessionResult>, ghost news: seq<Check>, ghost did: seq<Option<Op>>)
      requires Valid() && repo.Ends()
      modifies this, repo.Footprint()
      ensures Valid() && log == old(log) + news && draws == old(draws) + 1
      ensures old(repo.History()) <= repo.History()
      ensures r == Err(NoSessionId) <==> sessionFn(old(draws)).None?
      ensures r == Err(NoSessionId) ==> news == [] && repo.Contents() == old(repo.Contents())
      ensures r != Err(NoSessionId) ==>
                var hex := sessionFn(old(draws)).value;
                var session := Namespaced(stackPrefix, hex);
                && Attempt(repo.History(), |old(repo.History())|, repo.Contents(), session, hex, repo.Faults(), news, r)
                && (repo.Alone() ==>
                      Creation(old(repo.Contents()), repo.Contents(), session, hex, repo.Faults(), news, r))
                && Trace(repo.History(), repo.Others(), |old(repo.History())|, old(repo.Contents()), did,
                         repo.Contents())
                && OneByOne(did, session, None, Kept(repo.Faults(), news, r))
      ensures r.Ok? ==> HostRead(repo.History(), repo.Others(), |old(repo.History())|, r.value.runner)
      ensures r == Err(BackendFailed) ==> LastFailed(repo.Faults(), |old(repo.History())|, |repo.History()|)
      ensures r.Ok? && repo.Ours(r.value.sessionId) && Unheld(old(repo.Contents()), sessionFn(old(draws))) ==>
                AtMost(repo.Contents(), r.value.sessionId, r.value.runner.runnerId)
      ensures old(Clean(repo.Contents())) ==> Clean(repo.Contents())
      ensures r != Err(NoSessionId) ==> FirstTurn(old(repo.Contents()), |old(repo.History())|, news, Some(r))
    {
      hide Plain, FirstTurn, Attempt, Creation, IdleIds, Namespaced, AtMost, NobodyHolds, Purged, Dropped, Clean,
           Trace, OneByOne, Kept, SoFar, HostRead;
      hide Repository.Contents, Repository.Alone, Repository.Valid, Repository.History, Repository.Faults,
           Repository.Others, Repository.Ours, Repository.SettledFrom, Repository.FailsFrom;
      news, did := [], [];
      var sessionHex := sessionFn(draws);
      draws := draws + 1;
      if sessionHex.None? { return Err(NoSessionId), news, did; }
      ghost var since := |repo.History()|;
      r, news, did := KeepTrying(Namespaced(stackPrefix, sessionHex.value), sessionHex.value);
      AttemptAnswers(repo.History(), since, repo.Contents(), Namespaced(stackPrefix, sessionHex.value),
                     sessionHex.value, repo.Faults(), news, r);
    }

    lemma FirstTurnOn(t: Table, n: nat, news: seq<Check>, more: seq<Check>, r: Option<Outcome<CreateSessionResult>>)
      requires if news == [] then FirstTurn(t, n, more, r) else forall r' :: FirstTurn(t, n, news, r')
      ensures FirstTurn(t, n, news + more, r)
      ensures news + more != [] ==> forall r' :: FirstTurn(t, n, news + more, r')
    {
      if news != [] { assert FirstTurn(t, n, news, r); }
    }

    lemma FailsThen(n: nat)
      ensures repo.FailsFrom(n) ==> forall m: nat | n <= m :: repo.Faults()(m)
    {
    }

    lemma SoFarStart()
      ensures SoFar(repo.Contents(), [])
    {
      DroppedStart(repo.Faults(), []);
    }

    lemma SettledLater(m: nat, n: nat)
      requires (repo.SettledFrom(m) || repo.FailsFrom(m)) && m <= n
      ensures repo.SettledFrom(n) || repo.FailsFrom(n)
    {
    }

    /**
     The lookup half of ResolveSession: the record of the session, its check, and the delete of one that failed it.
     None means a session is to be created.
     */
    method Look(sessionID: string)
      returns (r: Option<Outcome<ResolveResult>>, reassigned: bool, ghost found: Option<string>, ghost news: seq<Check>)
      requires Valid() && sessionID != ""
      modifies this, repo.Footprint()
      ensures Valid() && log == old(log) + news && draws == old(draws)
      ensures old(repo.History()) <= repo.History() && |repo.History()| > |old(repo.History())|
      ensures repo.History()[|old(repo.History())|]
          == ApplyAll(old(repo.Contents()), repo.Others()(|old(repo.History())|))
      ensures reassigned ==> found.Some? && r.None?
      ensures Looked(repo.History()[|old(repo.History())|], repo.Contents(), sessionID, Story(found, news, None),
                     if r.Some? then r.value else Err(BackendFailed))
      ensures r.Some? && found.None? ==> r.value == Err(BackendFailed) && news == []
      ensures r.Some? && repo.Alone() ==> forall hex ::
                Resolution(old(repo.Contents()), repo.Contents(), stackPrefix, sessionID, hex, repo.Faults(),
                           Story(found, news, None), r.value)
      ensures r.None? ==> Cleared(repo.History()[|old(repo.History())|], repo.Contents(), sessionID, found, news)
      ensures r.None? ==> reassigned == found.Some? && |news| == if found.Some? then 1 else 0
      ensures r == Some(Err(BackendFailed)) ==>
                LastFailed(repo.Faults(), |old(repo.History())|, |repo.History()|) || !Clean(old(repo.Contents()))
      ensures old(Clean(repo.Contents())) ==> Clean(repo.Contents())
    {
      hide Apply, Namespaced, Cut, NobodyHolds, Clean, IsIdle, ApplyAll, Reads, Holds, Looked, Found, Resolution;
      hide Repository.Contents, Repository.Alone, Repository.Valid, Repository.History,
           Repository.Faults, Repository.Others;
      r, reassigned, found, news := None, false, None, [];
      ghost var t0, n := repo.Contents(), |repo.History()|;
      OthersMean(sessionID, n);
      NothingLands(t0);
      CleanLater(t0, repo.Others()(n));
      var answer := repo.FindBySessionID(sessionID);
      ghost var seen := repo.Contents();
      if answer.Failure? {
        if answer.error != ErrNotFound { r := Some(Err(BackendFailed)); }
        NotLooked(t0, seen, sessionID);
        return;
      }
      ghost var c;
      r, c := CheckFound(answer.value, sessionID, t0);
      reassigned, found, news := r.None?, Some(answer.value.runnerId), [c];
    }

    /** The check of the record found, and its delete if it failed; None means the record is gone. */
    method CheckFound(runner: Runner, sessionID: string, ghost t0: Table)
      returns (r: Option<Outcome<ResolveResult>>, ghost c: Check)
      requires Valid() && Holds(repo.Contents(), runner.runnerId, sessionID) && Reads(repo.Contents(), runner)
      modifies this, repo.Footprint()
      ensures Valid() && log == old(log) + [c] && draws == old(draws) && c.id == runner.runnerId
      ensures old(repo.History()) <= repo.History()
      ensures Looked(old(repo.Contents()), repo.Contents(), sessionID, Story(Some(c.id), [c], None),
                     if r.Some? then r.value else Err(BackendFailed))
      ensures r.Some? && repo.Alone() && old(repo.Contents()) == t0 ==> forall hex ::
                Resolution(t0, repo.Contents(), stackPrefix, sessionID, hex, repo.Faults(),
                           Story(Some(c.id), [c], None), r.value)
      ensures r.None? ==> Cleared(old(repo.Contents()), repo.Contents(), sessionID, Some(c.id), [c])
      ensures r == Some(Err(BackendFailed)) ==> LastFailed(repo.Faults(), |old(repo.History())|, |repo.History()|)
      ensures old(Clean(repo.Contents())) ==> Clean(repo.Contents())
    {
      hide Apply, Namespaced, Cut, NobodyHolds, Clean, IsIdle, ApplyAll, Reads, Holds, Looked, Found, Resolution;
      hide Repository.Contents, Repository.Alone, Repository.Valid, Repository.History, Repository.Faults,
           Repository.Others;
      ghost var seen, n := repo.Contents(), |repo.History()|;
      var verdict := CheckHealth(runner);
      c := Check(runner.runnerId, runner.privateHost, verdict, n);
      if verdict != Unhealthy {
        if verdict == Canceled {
          r := Some(Err(ContextEnded));
        } else {
          var parts := Cut(sessionID, SEPARATOR);
          if parts.None? {
            r := Some(Err(MissingPrefix));
          } else {
            r := Some(Ok(ResolveResult(sessionID, parts.value.1, runner.privateHost, false, false)));
          }
        }
        LookedAt(t0, seen, seen, sessionID, runner, c, r.value);
        return;
      }
      OthersMean(sessionID, n);
      NothingLands(seen);
      CleanDelete(seen, repo.Others()(n), runner.runnerId);
      var deleted := repo.Delete(runner.runnerId);
      LookedAt(t0, seen, repo.Contents(), sessionID, runner, c, Err(BackendFailed));
      r := if deleted.Failure? then Some(Err(BackendFailed)) else None;
    }

    /** What the check of the record found says, and how a failed delete ends the lookup. */
    lemma LookedAt(t0: Table, seen: Table, after: Table, sessionID: string, runner: Runner, c: Check,
                   r: Outcome<ResolveResult>)
      requires Holds(seen, runner.runnerId, sessionID) && Reads(seen, runner)
      requires c.id == runner.runnerId && c.host == runner.privateHost
      requires match c.verdict
               case Healthy =>
                 && after == seen
                 && r == (match Cut(sessionID, SEPARATOR)
                          case None => Err(MissingPrefix)
                          case Some(parts) => Ok(ResolveResult(sessionID, parts.1, runner.privateHost, false, false)))
               case Canceled => after == seen && r == Err(ContextEnded)
               case Unhealthy => r == Err(BackendFailed)
      ensures Looked(seen, after, sessionID, Story(Some(c.id), [c], None), r)
      ensures seen == t0 == after && (c.verdict == Unhealthy ==> repo.Faults()(c.at)) ==> forall hex ::
                Resolution(t0, after, stackPrefix, sessionID, hex, repo.Faults(), Story(Some(c.id), [c], None), r)
    {
      hide Cut;
    }

    lemma NotLooked(t0: Table, seen: Table, sessionID: string)
      ensures Looked(seen, seen, sessionID, Story(None, [], None), Err(BackendFailed))
      ensures seen == t0 ==> forall hex ::
                Resolution(t0, seen, stackPrefix, sessionID, hex, repo.Faults(), Story(None, [], None),
                           Err(BackendFailed))
    {
    }

    /** What the lookup leaves when it does not answer: nobody has the session, or its record failed its check. */
    ghost predicate Cleared(seen: Table, after: Table, sessionID: string, found: Option<string>, news: seq<Check>)
    {
      match found
      case None => NobodyHolds(seen, sessionID) && news == [] && after == seen
      case Some(id) =>
        && |news| == 1 && news[0].id == id && news[0].verdict == Unhealthy && !repo.Faults()(news[0].at)
        && exists n :: after == ApplyAll(seen, repo.Others()(n)) - {id}
    }

    lemma NobodyAfterLook(t0: Table, seen: Table, after: Table, sessionID: string, found: Option<string>,
                          checked: seq<Check>, session: string, n: nat)
      requires seen == ApplyAll(t0, repo.Others()(n)) && Cleared(seen, after, sessionID, found, checked)
      ensures repo.Ours(session) && NobodyHolds(t0, session) ==> NobodyHolds(after, session)
    {
      if repo.Ours(session) && NobodyHolds(t0, session) {
        OthersMean(session, n);
        HoldersShrink(t0, repo.Others()(n), session);
        if found.Some? {
          var k :| after == ApplyAll(seen, repo.Others()(k)) - {found.value};
          HoldersShrink(seen, repo.Others()(k), session);
          assert forall x | Holds(after, x, session) :: Holds(ApplyAll(seen, repo.Others()(k)), x, session);
        }
      }
    }

    lemma LookedOn(seen: Table, t1: Table, after: Table, sessionID: string, found: Option<string>, checked: seq<Check>,
                   story: Story, r: Outcome<ResolveResult>)
      requires Looked(seen, t1, sessionID, Story(found, checked, None), Err(BackendFailed))
      requires Cleared(seen, t1, sessionID, found, checked)
      requires story.found == found && checked <= story.news && story.created.Some?
      ensures Looked(seen, after, sessionID, story, r)
    {
    }

    lemma AloneAfterLook(t0: Table, seen: Table, t1: Table, sessionID: string, found: Option<string>,
                         checked: seq<Check>, n: nat)
      requires repo.Alone() && seen == ApplyAll(t0, repo.Others()(n)) && Cleared(seen, t1, sessionID, found, checked)
      ensures seen == t0 && t1 == if found.Some? then t0 - {found.value} else t0
    {
      OthersMean("", n);
      if found.Some? {
        var k :| t1 == ApplyAll(seen, repo.Others()(k)) - {found.value};
        OthersMean("", k);
      }
    }

    lemma FoundOn(t0: Table, t1: Table, t2: Table, sessionID: string, found: Option<string>, checked: seq<Check>,
                  hex: Option<string>, news: seq<Check>, result: Outcome<CreateSessionResult>)
      requires Looked(t0, t1, sessionID, Story(found, checked, None), Err(BackendFailed))
      requires Cleared(t0, t1, sessionID, found, checked) && t1 == if found.Some? then t0 - {found.value} else t0
      requires hex.None? ==> result == Err(NoSessionId) && news == [] && t2 == t1
      requires hex.Some? ==>
                 Creation(t1, t2, Namespaced(stackPrefix, hex.value), hex.value, repo.Faults(), news, result)
      ensures Resolution(t0, t2, stackPrefix, sessionID, hex, repo.Faults(), Story(found, checked + news, Some(result)),
                         Answer(result, found.Some?))
    {
      hide Creation, Namespaced;
      assert found.Some? ==> (checked + news)[1..] == news;
      assert checked == [] ==> checked + news == news;
    }

    /**
     What a resolve from the table `t0` tells, whatever lands meanwhile: its story, the table its lookup found, when
     the host of a runner it acquired is the record's, and why it met a backend error.
     */
    ghost predicate Visited(t0: Table, history: seq<Table>, since: nat, after: Table, sessionID: string,
                            hex: Option<string>, story: Story, r: Outcome<ResolveResult>)
    {
      && Visit(history, since, after, stackPrefix, sessionID, hex, repo.Faults(), story, r)
      && (sessionID != "" ==> since < |history| && history[since] == ApplyAll(t0, repo.Others()(since)))
      && (story.created.Some? && story.created.value.Ok? ==>
            HostRead(history, repo.Others(), since, story.created.value.value.runner))
      && (r == Err(BackendFailed) ==>
            LastFailed(repo.Faults(), since, |history|) || (sessionID != "" && !Clean(t0)))
    }

    method ResolveSession(sessionID: string) returns (r: Outcome<ResolveResult>, ghost story: Story)
      requires Valid() && repo.Ends()
      modifies this, repo.Footprint()
      ensures Valid() && log == old(log) + story.news && old(repo.History()) <= repo.History()
      ensures draws == old(draws) + Draws(story)
      ensures Visited(old(repo.Contents()), repo.History(), |old(repo.History())|, repo.Contents(), sessionID,
                      sessionFn(old(draws)), story, r)
      ensures r.Ok? ==>
                && (r.value.created <==> story.created.Some?)
                && (r.value.reassigned <==> r.value.created && story.found.Some?)
      ensures repo.Alone() ==>
                Resolution(old(repo.Contents()), repo.Contents(), stackPrefix, sessionID, sessionFn(old(draws)),
                           repo.Faults(), story, r)
      ensures story.created.Some? && r.Ok? && repo.Ours(r.value.sessionId)
              && Unheld(old(repo.Contents()), sessionFn(old(draws))) ==>
                AtMost(repo.Contents(), r.value.sessionId, VisitedId(story))
      ensures old(Clean(repo.Contents())) ==> Clean(repo.Contents())
    {
      hide Creation, Purged, IdleIds, Checked, Apply, Namespaced, Cut, NobodyHolds, Clean, IsIdle, Attempt, AtMost,
           ApplyAll, Holds, Found, Looked, HeldAtEnd, Visit, Resolution, Cleared, Trace, OneByOne, Kept, FirstTurn,
           Plain, HostRead;
      hide Repository.Contents, Repository.Alone, Repository.Valid, Repository.History,
           Repository.Faults, Repository.Others, Repository.Ours, Repository.Ends;
      var reassigned := false;
      ghost var found: Option<string>, checked: seq<Check> := None, [];
      ghost var t0, n := repo.Contents(), |repo.History()|;
      if sessionID != "" {
        var answer;
        answer, reassigned, found, checked := Look(sessionID);
        if answer.Some? {
          story := Story(found, checked, None);
          VisitAnswered(repo.History(), n, repo.Contents(), sessionID, sessionFn(draws), story, answer.value);
          if answer.value.Ok? {
            Flags(repo.History(), n, repo.Contents(), sessionID, sessionFn(draws), story, answer.value);
          }
          return answer.value, story;
        }
        if sessionFn(draws).Some? {
          NobodyAfterLook(t0, repo.History()[n], repo.Contents(), sessionID, found, checked, NextSession(), n);
        }
      }
      var result;
      ghost var news, later, t1 := [], |repo.History()|, repo.Contents();
      ghost var hex := sessionFn(draws);
      ghost var did;
      result, news, did := CreateSession();
      story := Story(found, checked + news, Some(result));
      if result.Ok? { ReadSince(repo.History(), repo.Others(), n, later, result.value.runner); }
      Regroup(old(log), checked, news);
      assert sessionID == "" ==> old(log) + checked == old(log);
      Recreated(t0, repo.History(), n, later, t1, repo.Contents(), sessionID, hex, found, checked, news, result);
      if result.Ok? {
        Flags(repo.History(), n, repo.Contents(), sessionID, hex, story, Answer(result, reassigned));
      }
      return Answer(result, reassigned), story;
    }

    /** The lookup and the createSession after it make up the whole resolve. */
    lemma Recreated(t0: Table, history: seq<Table>, since: nat, later: nat, t1: Table, after: Table, sessionID: string,
                    hex: Option<string>, found: Option<string>, checked: seq<Check>, news: seq<Check>,
                    result: Outcome<CreateSessionResult>)
      requires since <= later <= |history| && |checked| == if found.Some? then 1 else 0
      requires sessionID == "" ==> found.None? && t1 == t0
      requires sessionID != "" ==>
                 && since < |history| && history[since] == ApplyAll(t0, repo.Others()(since))
                 && Looked(history[since], t1, sessionID, Story(found, checked, None), Err(BackendFailed))
                 && Cleared(history[since], t1, sessionID, found, checked)
      requires hex.None? ==> result == Err(NoSessionId) && news == [] && after == t1
      requires hex.Some? ==>
                 var session := Namespaced(stackPrefix, hex.value);
                 && Attempt(history, later, after, session, hex.value, repo.Faults(), news, result)
                 && (repo.Alone() ==> Creation(t1, after, session, hex.value, repo.Faults(), news, result))
      ensures var story, r := Story(found, checked + news, Some(result)), Answer(result, found.Some?);
              && Visit(history, since, after, stackPrefix, sessionID, hex, repo.Faults(), story, r)
              && (repo.Alone() ==> Resolution(t0, after, stackPrefix, sessionID, hex, repo.Faults(), story, r))
      ensures result.Ok? && hex.Some? ==> result.value.sessionId == Namespaced(stackPrefix, hex.value)
    {
      hide Creation, Attempt, Looked, Cleared, Visit, Resolution, Namespaced, ApplyAll;
      hide Repository.Alone, Repository.Faults, Repository.Others;
      var story := Story(found, checked + news, Some(result));
      if hex.Some? {
        AttemptSince(history, since, later, after, Namespaced(stackPrefix, hex.value), hex.value, repo.Faults(), news,
                     result);
      }
      if sessionID != "" {
        LookedOn(history[since], t1, after, sessionID, found, checked, story, Answer(result, found.Some?));
        if repo.Alone() {
          AloneAfterLook(t0, history[since], t1, sessionID, found, checked, since);
          FoundOn(t0, t1, after, sessionID, found, checked, hex, news, result);
        }
      } else if repo.Alone() {
        assert checked == [];
        CreatedOnly(t0, after, hex, news, result);
      }
      VisitCreated(history, since, after, sessionID, hex, found, checked, news, result);
    }

    /** Created exactly if createSession was called, and then reassigned exactly if a record had been found. */
    lemma Flags(history: seq<Table>, since: nat, after: Table, sessionID: string, hex: Option<string>, story: Story,
                r: Outcome<ResolveResult>)
      requires Visit(history, since, after, stackPrefix, sessionID, hex, repo.Faults(), story, r) && r.Ok?
      ensures r.value.created <==> story.created.Some?
      ensures r.value.reassigned <==> r.value.created && story.found.Some?
    {
    }

    lemma VisitAnswered(history: seq<Table>, since: nat, after: Table, sessionID: string, hex: Option<string>,
                        story: Story, r: Outcome<ResolveResult>)
      requires sessionID != "" && since < |history| && story.created.None?
      requires Looked(history[since], after, sessionID, story, r)
      requires story.found.None? ==> r == Err(BackendFailed) && story.news == []
      ensures Visit(history, since, after, stackPrefix, sessionID, hex, repo.Faults(), story, r)
    {
    }

    lemma VisitCreated(history: seq<Table>, since: nat, after: Table, sessionID: string, hex: Option<string>,
                       found: Option<string>, checked: seq<Check>, news: seq<Check>,
                       result: Outcome<CreateSessionResult>)
      requires since <= |history| && |checked| == if found.Some? then 1 else 0
      requires var story := Story(found, checked + news, Some(result));
               if sessionID == "" then found.None?
               else since < |history| && Looked(history[since], after, sessionID, story, Answer(result, found.Some?))
      requires hex.None? ==> result == Err(NoSessionId)
      requires hex.Some? ==>
                 Attempt(history, since, after, Namespaced(stackPrefix, hex.value), hex.value, repo.Faults(), news,
                     result)
      ensures Visit(history, since, after, stackPrefix, sessionID, hex, repo.Faults(),
                    Story(found, checked + news, Some(result)), Answer(result, found.Some?))
    {
      hide Attempt, Looked;
      assert found.Some? ==> (checked + news)[1..] == news;
      assert checked == [] ==> checked + news == news;
    }

    lemma CreatedOnly(t0: Table, t1: Table, hex: Option<string>, news: seq<Check>, result: Outcome<CreateSessionResult>)
      requires hex.None? ==> result == Err(NoSessionId) && news == [] && t1 == t0
      requires hex.Some? ==>
                 Creation(t0, t1, Namespaced(stackPrefix, hex.value), hex.value, repo.Faults(), news, result)
      ensures Resolution(t0, t1, stackPrefix, "", hex, repo.Faults(), Story(None, [] + news, Some(result)),
                         Answer(result, false))
    {
      hide Creation;
      assert [] + news == news;
    }

    /** The host of a record that holds the session of this hex, or there is no such record, or the request failed. */
    ghost predicate LookedUp(t: Table, sessionHex: string, fault: bool, r: Outcome<string>) {
      match r
      case Ok(host) => exists id :: id in t && t[id] == Busy(host, Namespaced(stackPrefix, sessionHex))
      case Err(SessionNotFound) => NobodyHolds(t, Namespaced(stackPrefix, sessionHex))
      case Err(e) => e == BackendFailed && (fault || !Clean(t))
    }

    lemma LookupIs(t: Table, sessionHex: string, id: string, fault: bool, r: Outcome<string>)
      requires LookedUp(t, sessionHex, fault, r) && OnlyHolder(t, Namespaced(stackPrefix, sessionHex), id)
      requires r.Err? ==> r.error == SessionNotFound
      ensures r == Ok(t[id].host)
    {
      var session := Namespaced(stackPrefix, sessionHex);
      assert Holds(t, id, session);
      if r.Ok? {
        var x :| x in t && t[x] == Busy(r.value, session);
        assert Holds(t, x, session);
      }
    }

    method LookupSession(sessionHex: string) returns (r: Outcome<string>)
      requires Valid()
      modifies repo.Footprint()
      ensures Valid() && old(repo.History()) <= repo.History() && |repo.History()| == |old(repo.History())| + 1
      ensures repo.Contents() == repo.History()[|repo.History()| - 1]
              == ApplyAll(old(repo.Contents()), repo.Others()(|old(repo.History())|))
      ensures LookedUp(repo.Contents(), sessionHex, repo.Faults()(|old(repo.History())|), r)
    {
      var runner := repo.FindBySessionID(Namespaced(stackPrefix, sessionHex));
      if runner.Failure? {
        return Err(if runner.error == ErrNotFound then SessionNotFound else BackendFailed);
      }
      return Ok(runner.value.privateHost);
    }

    /** The delete goes by id alone: it removes whatever the id names when it lands. */
    method CloseSession(sessionID: string) returns (r: Outcome<()>)
      requires Valid()
      modifies repo.Footprint()
      ensures Valid() && old(repo.History()) <= repo.History() && |repo.History()| > |old(repo.History())|
      ensures var n := |old(repo.History())|;
              var seen := repo.History()[n];
              && seen == ApplyAll(old(repo.Contents()), repo.Others()(n))
              && (r.Ok? ==> exists id :: Holds(seen, id, sessionID)
                                         && repo.Contents() == ApplyAll(seen, repo.Others()(n + 1)) - {id})
              && (r == Err(SessionNotFound) ==> NobodyHolds(seen, sessionID) && repo.Contents() == seen)
              && (r.Err? && r.error != SessionNotFound ==>
                    && r.error == BackendFailed
                    && (sessionID == "" || repo.Faults()(|repo.History()| - 1) || !Clean(seen))
                    && (repo.Contents() == seen || repo.Contents() == ApplyAll(seen, repo.Others()(n + 1))))
    {
      hide ApplyAll;
      hide Repository.Contents, Repository.Valid, Repository.History, Repository.Faults,
           Repository.Others;
      ghost var n := |repo.History()|;
      var runner := repo.FindBySessionID(sessionID);
      if runner.Failure? {
        return Err(if runner.error == ErrNotFound then SessionNotFound else BackendFailed);
      }
      OthersMean(sessionID, n + 1);
      var deleted := repo.Delete(runner.value.runnerId);
      return if deleted.Success? then Ok(()) else Err(BackendFailed);
    }

    /** A resolve of the session of this hex, then as the last request its lookup. */
    ghost predicate VisitedThenLooked(t0: Table, history: seq<Table>, since: nat, after: Table, sessionHex: string,
                                      hex: Option<string>, again: Story, later: Table, second: Outcome<ResolveResult>,
                                      lookup: Outcome<string>)
    {
      && since < |history|
      && history[since] == ApplyAll(t0, repo.Others()(since))
      && Visited(t0, history[..|history| - 1], since, later, Namespaced(stackPrefix, sessionHex), hex, again, second)
      && after == ApplyAll(later, repo.Others()(|history| - 1))
      && LookedUp(after, sessionHex, repo.Faults()(|history| - 1), lookup)
    }

    /** The resolve found and checked this record; after a passing check both answers are its host, nothing created. */
    ghost predicate FindsAgain(sessionHex: string, id: string, t: Table, again: Story, second: Outcome<ResolveResult>,
                               lookup: Outcome<string>)
    {
      && Holds(t, id, Namespaced(stackPrefix, sessionHex)) && again.found == Some(id)
      && again.news != [] && again.news[0].host == t[id].host
      && (again.news[0].verdict == Healthy ==>
            && second == Ok(ResolveResult(Namespaced(stackPrefix, sessionHex), sessionHex, t[id].host, false, false))
            && lookup == Ok(t[id].host))
    }

    lemma FirstIs(history: seq<Table>, since: nat, after: Table, sessionID: string, hex: Option<string>, story: Story,
                  r: Outcome<ResolveResult>)
      requires Visit(history, since, after, stackPrefix, sessionID, hex, repo.Faults(), story, r) && r.Ok?
      ensures story.created.Some? ==>
                hex.Some? && story.created.value.Ok? && r.value.sessionId == Namespaced(stackPrefix, hex.value)
      ensures story.created.None? ==> r.value.sessionId == sessionID
      ensures story.created.Some? <==> r.value.created
    {
    }

    lemma LookupFinds(t: Table, ops: seq<Op>, id: string, session: string)
      requires OnlyHolder(t, session, id)
      requires forall op | op in ops :: op != Remove(id) && !(op.Assign? && op.session == session)
      ensures OnlyHolder(ApplyAll(t, ops), session, id) && ApplyAll(t, ops)[id] == t[id]
      ensures !NobodyHolds(ApplyAll(t, ops), session) && forall x | Holds(ApplyAll(t, ops), x, session) :: x == id
      ensures Clean(t) ==> Clean(ApplyAll(t, ops))
    {
      CleanLater(t, ops);
      OpsKeepHolder(t, ops, id, session);
    }

    /**
     The session of this hex, held by one record, is resolved and then looked up while other brokers act: as long as
     nobody deletes that record, the resolve finds it. If its check passes, both answer that record's host.
     */
    method ResolveThenLookup(sessionHex: string, ghost id: string)
      returns (second: Outcome<ResolveResult>, lookup: Outcome<string>, ghost again: Story, ghost later: Table)
      requires Valid() && repo.Ends() && SEPARATOR !in stackPrefix
      requires var session := Namespaced(stackPrefix, sessionHex);
               OnlyHolder(repo.Contents(), session, id) && repo.Ours(session) && session != ""
      modifies this, repo.Footprint()
      ensures Valid() && old(repo.History()) <= repo.History() && |old(repo.History())| < |repo.History()|
      ensures log == old(log) + again.news && draws == old(draws) + Draws(again)
      ensures VisitedThenLooked(old(repo.Contents()), repo.History(), |old(repo.History())|, repo.Contents(),
                                sessionHex, sessionFn(old(draws)), again, later, second, lookup)
      ensures (forall m: nat, op | |old(repo.History())| <= m && op in repo.Others()(m) :: op != Remove(id))
              && second != Err(BackendFailed) && lookup != Err(BackendFailed) ==>
                FindsAgain(sessionHex, id, old(repo.Contents()), again, second, lookup)
    {
      hide Visit, Resolution, Namespaced, NobodyHolds, Clean, UniqueSessions, Issued, AtMost, OnlyHolder, ApplyAll,
           Holds, HostRead, LookedUp, VisitedId;
      hide Repository.Contents, Repository.Alone, Repository.Valid, Repository.History,
           Repository.Faults, Repository.Others, Repository.Ours, Repository.Ends;
      ghost var t, n, hex, session := repo.Contents(), |repo.History()|, sessionFn(draws),
                                      Namespaced(stackPrefix, sessionHex);
      OthersMean(session, n);
      second, again := ResolveSession(Namespaced(stackPrefix, sessionHex));
      ghost var h := repo.History();
      later := repo.Contents();
      lookup := LookupSession(sessionHex);
      assert repo.History()[..|repo.History()| - 1] == h;
      if (forall m: nat, op | n <= m && op in repo.Others()(m) :: op != Remove(id))
         && second != Err(BackendFailed) && lookup != Err(BackendFailed)
      {
        VisitAgain(t, repo.Others()(n), id, h, n, later, stackPrefix, sessionHex, hex, repo.Faults(), again, second);
        if again.news[0].verdict == Healthy {
          OthersMean(session, |h|);
          LookupFinds(later, repo.Others()(|h|), id, session);
          LookupIs(repo.Contents(), sessionHex, id, repo.Faults()(|h|), lookup);
        }
      }
    }

    /**
     A visitor who comes back while other brokers act: whatever the first resolve answered, the answered session names
     one record, and as long as nobody deletes that record, resolving the session again finds it. If its check passes
     the answer is that record's host, not created, and the app lookup of the answered hex reaches it too.
     */
    method VisitTwice(sessionID: string)
      returns (first: Outcome<ResolveResult>, second: Outcome<ResolveResult>, lookup: Outcome<string>,
               ghost story: Story, ghost between: Table, ghost n: nat, ghost again: Story, ghost later: Table)
      requires Valid() && repo.Ends() && SEPARATOR !in stackPrefix
      requires UniqueSessions(repo.Contents()) && Issued(repo.Contents(), stackPrefix)
      requires repo.Ours(sessionID)
      requires sessionFn(draws).Some? ==> repo.Ours(NextSession()) && NobodyHolds(repo.Contents(), NextSession())
      modifies this, repo.Footprint()
      ensures Valid() && old(repo.History()) <= repo.History() && |old(repo.History())| <= n <= |repo.History()|
      // the first visit, its requests before request n, leaves the table `between`
      ensures Visited(old(repo.Contents()), repo.History()[..n], |old(repo.History())|, between, sessionID,
                      sessionFn(old(draws)), story, first)
      ensures first.Err? ==>
                && log == old(log) + story.news && n == |repo.History()| && between == repo.Contents()
                && draws == old(draws) + Draws(story)
      ensures first.Ok? ==>
                && OnlyHolder(between, first.value.sessionId, VisitedId(story))
                && first.value.sessionId == Namespaced(stackPrefix, first.value.sessionHex)
                && (!first.value.created ==> between[VisitedId(story)].host == first.value.runnerHost)
      // the second, from request n on, leaves `later`; the last request is the lookup
      ensures first.Ok? ==>
                && log == old(log) + story.news + again.news && n < |repo.History()|
                && draws == old(draws) + Draws(story) + Draws(again)
                && VisitedThenLooked(between, repo.History(), n, repo.Contents(), first.value.sessionHex,
                                     sessionFn(old(draws) + Draws(story)), again, later, second, lookup)
      ensures first.Ok? && (forall m: nat, op | n <= m && op in repo.Others()(m) :: op != Remove(VisitedId(story)))
              && second != Err(BackendFailed) && lookup != Err(BackendFailed) ==>
                FindsAgain(first.value.sessionHex, VisitedId(story), between, again, second, lookup)
    {
      hide Visit, Resolution, Namespaced, NobodyHolds, Clean, UniqueSessions, Issued, AtMost, OnlyHolder, ApplyAll,
           Holds, HostRead, LookedUp, VisitedId, VisitedThenLooked, FindsAgain;
      hide Repository.Contents, Repository.Alone, Repository.Valid, Repository.History,
           Repository.Faults, Repository.Others, Repository.Ours, Repository.Ends;
      ghost var t0, n0, hex := repo.Contents(), |repo.History()|, sessionFn(draws);
      OthersMean(sessionID, n0);
      first, story := ResolveSession(sessionID);
      between, n, again, later := repo.Contents(), |repo.History()|, story, repo.Contents();
      ghost var h := repo.History();
      assert h[..n] == h;
      second, lookup := first, Err(SessionNotFound);
      if first.Err? { return; }
      FirstIs(h, n0, between, sessionID, hex, story, first);
      VisitNames(t0, repo.Others()(n0), h, n0, between, stackPrefix, sessionID, hex, repo.Faults(), story, first);
      second, lookup, again, later := ResolveThenLookup(first.value.sessionHex, VisitedId(story));
      assert repo.History()[..n] == h;
    }
  }
}
