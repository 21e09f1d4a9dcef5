/** What an answered resolve tells the visitor, field by field, and on which table it says so. */
module ResolveLaws {
  import opened Text
  import opened RunnerTable
  import opened RunnerScan
  import opened BrokerTypes
  import opened BrokerService

  /**
   A created answer: the session drawn, on a runner that was idle at some moment of the call, passed the last check
   and holds the session. "Reassigned" means that the table the lookup found had a record with the session presented
   and that this record failed its check.
   */
  ghost predicate NewSession(seen: Table, after: Table, stackPrefix: string, sessionID: string, hex: Option<string>,
                             story: Story, res: ResolveResult)
  {
    && hex.Some? && res.created && res.sessionHex == hex.value && res.sessionId == Namespaced(stackPrefix, hex.value)
    && story.news != [] && var last := story.news[|story.news| - 1];
    && last.verdict == Healthy && last.host == res.runnerHost && Holds(after, last.id, res.sessionId)
    && (res.reassigned <==> sessionID != "" && !NobodyHolds(seen, sessionID))
    && (res.reassigned ==> |story.news| > 1 && FailedHolder(seen, sessionID, story.news[0]))
  }

  /** The check was of a record that holds the session, and failed. */
  ghost predicate FailedHolder(seen: Table, sessionID: string, check: Check) {
    Holds(seen, check.id, sessionID) && check.host == seen[check.id].host && check.verdict == Unhealthy
  }

  /** An answer for the session presented: a record of the table found holds it and passed its check, the only one. */
  ghost predicate OldSession(seen: Table, after: Table, sessionID: string, story: Story, res: ResolveResult) {
    && !res.created && !res.reassigned && after == seen && res.sessionId == sessionID
    && |story.news| == 1 && story.news[0].verdict == Healthy && story.news[0].host == res.runnerHost
    && Holds(seen, story.news[0].id, sessionID) && seen[story.news[0].id].host == res.runnerHost
    && exists prefix :: SEPARATOR !in prefix && sessionID == Namespaced(prefix, res.sessionHex)
  }

  /** Among other brokers. The table that was found is the one of the first request, which a lookup alone makes. */
  lemma VisitTells(history: seq<Table>, since: nat, after: Table, stackPrefix: string, sessionID: string,
                   hex: Option<string>, faults: nat -> bool, story: Story, r: Outcome<ResolveResult>)
    requires Visit(history, since, after, stackPrefix, sessionID, hex, faults, story, r) && r.Ok?
    ensures since < |history|
    ensures if r.value.created then NewSession(history[since], after, stackPrefix, sessionID, hex, story, r.value)
            else sessionID != "" && OldSession(history[since], after, sessionID, story, r.value)
    ensures r.value.reassigned <==> r.value.created && story.found.Some?
    ensures r.value.created ==> exists k, id :: since <= k < |history| && id in history[k]
                                                && history[k][id] == Idle(r.value.runnerHost)
  {
    if story.created.Some? {
      var c := story.created.value.value;
      GrantedSince(history, since, since, c.runner, c.sessionId, after);
      var k :| since <= k < |history| && c.runner.runnerId in history[k]
               && history[k][c.runner.runnerId] == Idle(c.runner.privateHost);
      if story.found.Some? { assert story.news == [story.news[0]] + story.news[1..]; }
    } else {
      CutSound(sessionID, SEPARATOR);
    }
  }

  /** Undisturbed, from table `t0`. */
  lemma ResolutionTells(t0: Table, t1: Table, stackPrefix: string, sessionID: string, hex: Option<string>,
                        faults: nat -> bool, story: Story, r: Outcome<ResolveResult>)
    requires Resolution(t0, t1, stackPrefix, sessionID, hex, faults, story, r) && r.Ok?
    requires sessionID == "" ==> story.found.None?
    ensures if r.value.created then NewSession(t0, t1, stackPrefix, sessionID, hex, story, r.value)
            else sessionID != "" && OldSession(t0, t1, sessionID, story, r.value)
    ensures r.value.reassigned <==> r.value.created && story.found.Some?
  {
    if story.created.Some? {
      if story.found.Some? { assert story.news == [story.news[0]] + story.news[1..]; }
    } else {
      CutSound(sessionID, SEPARATOR);
    }
  }

  /** Why a resolve is not answered. */
  lemma VisitFails(history: seq<Table>, since: nat, after: Table, stackPrefix: string, sessionID: string,
                   hex: Option<string>, faults: nat -> bool, story: Story, r: Outcome<ResolveResult>)
    requires Visit(history, since, after, stackPrefix, sessionID, hex, faults, story, r)
    ensures r == Err(NoIdleRunner) ==>
              && (forall id :: SawUnavailable(history, since, id))
              && forall i | 0 <= i < |story.news| :: story.news[i].verdict == Unhealthy
    ensures r == Err(ContextEnded) ==> story.news != [] && story.news[|story.news| - 1].verdict == Canceled
    ensures r == Err(NoSessionId) ==> hex.None?
    ensures r == Err(MissingPrefix) ==>
              SEPARATOR !in sessionID && since < |history| && !NobodyHolds(history[since], sessionID)
    ensures r != Err(SessionNotFound)
  {
    CutSound(sessionID, SEPARATOR);
    if r == Err(MissingPrefix) {
      assert story.created.None? && Holds(history[since], story.found.value, sessionID);
    }
  }
}
