/** A createSession of the service, among brokers that keep to the rules, is a run of the interleaving machine. */
module CreationRuns {
  import opened Text
  import opened RunnerTable
  import opened Traces
  import opened TraceRuns
  import opened BrokerTypes
  import opened BrokerService
  import I = Interleaving

  /** How our creation ends: serving the runner it answers, or stopped with the runner it leaves busy, if any. */
  function Ended(r: Outcome<CreateSessionResult>, kept: Option<string>): I.Phase {
    if r.Ok? then I.Serving(r.value.runner.runnerId) else I.Stopped(kept)
  }

  /** A run that a call continued to this table, with its creation ended so. */
  ghost predicate Continued(states0: seq<I.System>, steps0: seq<I.Step>, states: seq<I.System>, steps: seq<I.Step>,
                            t: Table, session: string, phase: I.Phase)
  {
    && |states0| == |steps0| + 1 && Extends(states0, steps0, states, steps) && I.IsRun(states, steps)
    && var b, last := |states0[|steps0|].creations|, states[|steps|];
    && last.table == t && b < |last.creations| && last.creations[b] == I.Creation(session, phase)
  }

  lemma Finish(states: seq<I.System>, steps: seq<I.Step>, t: Table, b: nat, mine: string, barred: set<string>,
               r: Outcome<CreateSessionResult>, kept: Option<string>)
    returns (states': seq<I.System>, steps': seq<I.Step>)
    requires Reaches(states, steps, t, b, mine, barred, Working(kept))
    requires r.Ok? ==> kept == Some(r.value.runner.runnerId)
    ensures Extends(states, steps, states', steps') && I.IsRun(states', steps')
    ensures var last := states'[|steps'|];
            last.table == t && b < |last.creations| && last.creations[b] == I.Creation(mine, Ended(r, kept))
  {
    var s := states[|steps|];
    var step := if r.Ok? then I.Pass(b) else I.Stop(b);
    states', steps' := I.StepOn(states, steps, step, I.Next(s, step));
  }

  /**
   A call may join a run: the run ends with the table the call starts from, the call's session id is new in it, and
   what lands between the call's requests is orderly.
   */
  ghost predicate Joins(states0: seq<I.System>, steps0: seq<I.Step>, history: seq<Table>, others: nat -> seq<Op>,
                        since: nat, t: Table, did: seq<Option<Op>>, session: string)
  {
    && I.IsRun(states0, steps0) && I.Start(states0[0]) && states0[|steps0|].table == t
    && session !in states0[|steps0|].used
    && AllOrderly(history, others, since, t, did, session, Closed(states0[|steps0|]))
  }

  lemma CallRun(states0: seq<I.System>, steps0: seq<I.Step>, history: seq<Table>, others: nat -> seq<Op>, since: nat,
                t: Table, did: seq<Option<Op>>, after: Table, session: string, r: Outcome<CreateSessionResult>,
                kept: Option<string>)
    returns (states: seq<I.System>, steps: seq<I.Step>)
    requires Joins(states0, steps0, history, others, since, t, did, session)
    requires Trace(history, others, since, t, did, after) && OneByOne(did, session, None, kept)
    requires r.Ok? ==> kept == Some(r.value.runner.runnerId)
    ensures Continued(states0, steps0, states, steps, after, session, Ended(r, kept))
    ensures forall n | since <= n < |history| :: Seen(states, history[n])
    ensures kept.Some? ==> Acquired(states, steps, |steps0|, kept.value)
    ensures UniqueSessions(after)
  {
    hide AllOrderly, Trace, OneByOne, I.Start, Closed, I.Next, I.Enabled, Seen, Acquired;
    var s := states0[|steps0|];
    var b, barred := |s.creations|, Closed(s);
    var states1, steps1 := ReachesInit(states0, steps0, session);
    var states2, steps2 := TraceRun(states1, steps1, history, others, since, t, did, after, b, session, barred, None,
                                    kept);
    states, steps := Finish(states2, steps2, after, b, session, barred, r, kept);
    forall n | since <= n < |history| ensures Seen(states, history[n]) {
      SeenStill(states2, states, history[n]);
    }
    if kept.Some? {
      AcquiredStill(states2, steps2, states, steps, |steps1|, |steps1|, kept.value);
      AcquiredStill(states, steps, states, steps, |steps0|, |steps1|, kept.value);
    }
    I.InvAlways(states, steps, |steps|);
  }

  lemma KeptAnswered(history: seq<Table>, since: nat, after: Table, session: string, faults: nat -> bool,
                     log: seq<Check>, r: Outcome<CreateSessionResult>)
    requires exists hex :: Attempt(history, since, after, session, hex, faults, log, r)
    requires r.Ok?
    ensures Kept(faults, log, r) == Some(r.value.runner.runnerId)
  {
  }

  /** A call that is alone may join any run that ends with its table and has not used its session id. */
  lemma AloneJoins(states0: seq<I.System>, steps0: seq<I.Step>, history: seq<Table>, others: nat -> seq<Op>,
                   since: nat, t: Table, did: seq<Option<Op>>, after: Table, session: string)
    requires I.IsRun(states0, steps0) && I.Start(states0[0]) && states0[|steps0|].table == t
    requires session !in states0[|steps0|].used
    requires Trace(history, others, since, t, did, after) && forall n :: others(n) == []
    ensures Joins(states0, steps0, history, others, since, t, did, session)
  {
    AloneOrderly(history, others, since, t, did, after, session, Closed(states0[|steps0|]));
  }

  /**
   createSession continues any run of the machine it may join: every table it finds is a state of the run, and its own
   creation ends as it answers. So what holds of every run holds of the service.
   */
  method CreateInRun(svc: BrokerService, ghost states0: seq<I.System>, ghost steps0: seq<I.Step>)
    returns (r: Outcome<CreateSessionResult>, ghost states: seq<I.System>, ghost steps: seq<I.Step>,
             ghost did: seq<Option<Op>>, ghost kept: Option<string>)
    requires svc.Valid() && svc.repo.Ends()
    modifies svc, svc.repo.Footprint()
    ensures svc.Valid() && old(svc.repo.History()) <= svc.repo.History() && svc.draws == old(svc.draws) + 1
    ensures r == Err(NoSessionId) <==> svc.sessionFn(old(svc.draws)).None?
    ensures r.Ok? ==> kept == Some(r.value.runner.runnerId)
    ensures r != Err(NoSessionId) ==>
              && Trace(svc.repo.History(), svc.repo.Others(), |old(svc.repo.History())|, old(svc.repo.Contents()), did,
                       svc.repo.Contents())
              && OneByOne(did, old(svc.NextSession()), None, kept)
    ensures r != Err(NoSessionId)
            && Joins(states0, steps0, svc.repo.History(), svc.repo.Others(), |old(svc.repo.History())|,
                     old(svc.repo.Contents()), did, old(svc.NextSession())) ==>
              && Continued(states0, steps0, states, steps, svc.repo.Contents(), old(svc.NextSession()), Ended(r, kept))
              && (forall n | |old(svc.repo.History())| <= n < |svc.repo.History()| ::
                    Seen(states, svc.repo.History()[n]))
              && (kept.Some? ==> Acquired(states, steps, |steps0|, kept.value))
              && UniqueSessions(svc.repo.Contents())
  {
    hide Joins, I.IsRun, I.Start, I.Next, Trace, OneByOne, Creation, Attempt, Namespaced, Seen, Acquired, Closed,
         NobodyHolds, AtMost, UniqueSessions, AllOrderly, Kept, Continued;
    ghost var t0, n, session := svc.repo.Contents(), |svc.repo.History()|, "";
    if svc.sessionFn(svc.draws).Some? { session := svc.NextSession(); }
    states, steps := states0, steps0;
    ghost var news;
    r, news, did := svc.CreateSession();
    kept := Kept(svc.repo.Faults(), news, r);
    if r.Ok? { KeptAnswered(svc.repo.History(), n, svc.repo.Contents(), session, svc.repo.Faults(), news, r); }
    if r != Err(NoSessionId)
       && Joins(states0, steps0, svc.repo.History(), svc.repo.Others(), n, t0, did, session) {
      states, steps := CallRun(states0, steps0, svc.repo.History(), svc.repo.Others(), n, t0, did,
                               svc.repo.Contents(), session, r, kept);
    }
  }

  /** Some step deletes the runner, and a later one registers it again. */
  ghost predicate ComesBack(states: seq<I.System>, steps: seq<I.Step>, id: string) {
    && |states| > |steps|
    && exists k, l ::
         0 <= k < l < |steps| && I.Deletes(states[k], steps[k], id) && I.Registers(states[l], steps[l], id)
  }

  /** Two creations that joined one run and acquired one runner: in between it was deleted and registered again. */
  lemma GivenTwice(states1: seq<I.System>, steps1: seq<I.Step>, states2: seq<I.System>, steps2: seq<I.Step>,
                   from: nat, id: string)
    requires I.IsRun(states2, steps2) && Extends(states1, steps1, states2, steps2)
    requires Acquired(states1, steps1, from, id) && Acquired(states2, steps2, |steps1|, id)
    ensures ComesBack(states2, steps2, id)
  {
    var i :| from <= i < |steps1| && I.Acquires(states1[i], steps1[i], id);
    var j :| |steps1| <= j < |steps2| && I.Acquires(states2[j], steps2[j], id);
    assert I.Acquires(states2[i], steps2[i], id);
    var k, l := I.AcquiredOncePerRegistration(states2, steps2, i, j, id);
  }
}
