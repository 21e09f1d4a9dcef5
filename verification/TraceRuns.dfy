/** The trace of a call, among brokers that keep to the rules, is a run of the interleaving machine. */
module TraceRuns {
  import opened Text
  import opened RunnerTable
  import opened RunnerHistory
  import opened Traces
  import opened Interleaving

  // ---- what the others must keep to ----

  /**
   The others never give a session to a second record, nor use the session `mine` or one of `barred`: every assignment
   of theirs that takes effect is of a session nobody holds.
   */
  ghost predicate Orderly(t: Table, ops: seq<Op>, mine: string, barred: set<string>)
    decreases |ops|
  {
    ops != [] ==> OpOrderly(t, ops[0], mine, barred) && Orderly(Apply(t, ops[0]), ops[1..], mine, barred)
  }

  ghost predicate OpOrderly(t: Table, op: Op, mine: string, barred: set<string>) {
    op.Assign? && IsIdle(t, op.id) ==> op.session != mine && op.session !in barred && NobodyHolds(t, op.session)
  }

  /** They keep to it before each request of the trace. */
  ghost predicate AllOrderly(history: seq<Table>, others: nat -> seq<Op>, since: nat, t: Table, did: seq<Option<Op>>,
                             mine: string, barred: set<string>)
    decreases |did|
  {
    did != [] ==>
      && since < |history| && Orderly(t, others(since), mine, barred)
      && AllOrderly(history, others, since + 1, Did(history[since], did[0]), did[1..], mine, barred)
  }

  // ---- how the machine follows ----

  /** A creation that may still be given a runner: it looks for one, or holds the one it checks. */
  predicate Live(s: System, c: nat)
    requires c < |s.creations|
  {
    match s.creations[c].phase
    case Acquiring => true
    case Checking(id) => Holds(s.table, id, s.creations[c].session)
    case _ => false
  }

  /** The sessions in use that no live creation works on. */
  function Closed(s: System): set<string> {
    set x | x in s.used && forall c | 0 <= c < |s.creations| && s.creations[c].session == x :: !Live(s, c)
  }

  /** Creation `b` is ours; of the other sessions in use each is barred or has its live creation. */
  ghost predicate Ready(s: System, b: nat, mine: string, barred: set<string>) {
    && b < |s.creations| && s.creations[b].session == mine && Inv(s)
    && (forall c | 0 <= c < |s.creations| && c != b :: s.creations[c].session in barred || Live(s, c))
    && (forall x | x in s.used && x != mine && x !in barred ::
          exists c :: 0 <= c < |s.creations| && c != b && s.creations[c].session == x)
  }

  predicate HeldBy(s: System, c: nat, b: nat, id: string) {
    c < |s.creations| && c != b && s.creations[c].phase == Checking(id) && Holds(s.table, id, s.creations[c].session)
  }

  lemma PutReady(s: System, b: nat, mine: string, barred: set<string>, id: string, host: string)
    requires Ready(s, b, mine, barred)
    ensures var t := Next(s, Register(id, host));
            && Ready(t, b, mine, barred) && t.table == Apply(s.table, Put(id, host)) && t.creations == s.creations
  {
    InvStep(s, Register(id, host));
    var t := Next(s, Register(id, host));
    assert forall x, session | Holds(s.table, x, session) :: Holds(t.table, x, session);
  }

  /** A removal nobody's live creation is hurt by. */
  lemma RemoveReady(s: System, b: nat, mine: string, barred: set<string>, id: string)
    requires Ready(s, b, mine, barred) && forall c: nat :: !HeldBy(s, c, b, id)
    ensures var t := Next(s, Deregister(id));
            && Ready(t, b, mine, barred) && t.table == s.table - {id} && t.creations == s.creations
  {
    InvStep(s, Deregister(id));
    var t := Next(s, Deregister(id));
    forall c | 0 <= c < |s.creations| && c != b && Live(s, c) ensures Live(t, c) {
      assert !HeldBy(s, c, b, id);
    }
  }

  /** The removal of a record another creation holds is that creation's own drop. */
  lemma DropReady(s: System, b: nat, mine: string, barred: set<string>, id: string, c: nat)
    requires Ready(s, b, mine, barred) && HeldBy(s, c, b, id)
    ensures Enabled(s, Fail(c)) && Enabled(Next(s, Fail(c)), Drop(c))
    ensures var t := Next(Next(s, Fail(c)), Drop(c));
            && Ready(t, b, mine, barred) && t.table == s.table - {id} && |t.creations| == |s.creations|
            && t.creations[b] == s.creations[b] && forall d: nat :: !HeldBy(t, d, b, id)
  {
    var u := Next(s, Fail(c));
    var t := Next(u, Drop(c));
    InvStep(s, Fail(c));
    InvStep(u, Drop(c));
    assert t.table == s.table - {id} && t.used == s.used;
    forall d | 0 <= d < |s.creations| && d != b && Live(s, d) ensures Live(t, d) {
      if d != c && s.creations[d].phase.Checking? {
        assert s.creations[d].phase.id != id by {
          assert Holds(s.table, id, s.creations[c].session);
        }
      }
    }
    forall x | x in t.used && x != mine && x !in barred
      ensures exists d :: 0 <= d < |t.creations| && d != b && t.creations[d].session == x
    {
      var d :| 0 <= d < |s.creations| && d != b && s.creations[d].session == x;
      assert t.creations[d].session == x;
    }
  }

  /** An assignment goes to the live creation of its session, ... */
  lemma AssignReady(s: System, b: nat, mine: string, barred: set<string>, id: string, c: nat)
    requires Ready(s, b, mine, barred) && IsIdle(s.table, id)
    requires c < |s.creations| && s.creations[c].phase.Acquiring?
    ensures Enabled(s, TryAssign(c, id))
    ensures var t := Next(s, TryAssign(c, id));
            && Ready(t, b, mine, barred) && t.table == Apply(s.table, Assign(id, s.creations[c].session))
            && |t.creations| == |s.creations| && (c != b ==> t.creations[b] == s.creations[b])
            && t.creations[c].phase == Checking(id)
  {
    var t := Next(s, TryAssign(c, id));
    InvStep(s, TryAssign(c, id));
    forall d | 0 <= d < |s.creations| && d != b && Live(s, d) ensures Live(t, d) {
    }
    forall x | x in t.used && x != mine && x !in barred
      ensures exists d :: 0 <= d < |t.creations| && d != b && t.creations[d].session == x
    {
      var d :| 0 <= d < |s.creations| && d != b && s.creations[d].session == x;
      assert t.creations[d].session == x;
    }
  }

  /** ... which begins if there is none. */
  lemma BeginReady(s: System, b: nat, mine: string, barred: set<string>, session: string)
    requires Ready(s, b, mine, barred) && session !in s.used
    ensures var t := Next(s, Begin(session));
            && Ready(t, b, mine, barred) && t.table == s.table && t.creations[b] == s.creations[b]
            && t.creations == s.creations + [Creation(session, Acquiring)]
  {
    var t := Next(s, Begin(session));
    InvStep(s, Begin(session));
    assert forall d | 0 <= d < |s.creations| :: t.creations[d] == s.creations[d];
    forall x | x in t.used && x != mine && x !in barred
      ensures exists d :: 0 <= d < |t.creations| && d != b && t.creations[d].session == x
    {
      if x == session {
        assert t.creations[|s.creations|].session == x;
      } else {
        var d :| 0 <= d < |s.creations| && d != b && s.creations[d].session == x;
        assert t.creations[d].session == x;
      }
    }
  }

  // ---- whole runs ----

  /** A run that ends with this table and our creation in this phase. */
  ghost predicate Reaches(states: seq<System>, steps: seq<Step>, t: Table, b: nat, mine: string, barred: set<string>,
                          phase: Phase)
  {
    && IsRun(states, steps) && Start(states[0])
    && var s := states[|steps|];
    && Ready(s, b, mine, barred) && s.table == t && s.creations[b].phase == phase
  }

  ghost predicate Extends(states: seq<System>, steps: seq<Step>, states': seq<System>, steps': seq<Step>) {
    states <= states' && steps <= steps'
  }

  lemma ReachesInit(states: seq<System>, steps: seq<Step>, session: string)
    returns (states': seq<System>, steps': seq<Step>)
    requires IsRun(states, steps) && Start(states[0]) && session !in states[|steps|].used
    ensures var s := states[|steps|];
            && Reaches(states', steps', s.table, |s.creations|, session, Closed(s), Acquiring)
            && Extends(states, steps, states', steps')
  {
    var s := states[|steps|];
    InvAlways(states, steps, |steps|);
    var t := Next(s, Begin(session));
    states', steps' := StepOn(states, steps, Begin(session), t);
    InvStep(s, Begin(session));
    assert forall c | 0 <= c < |s.creations| :: t.creations[c] == s.creations[c];
    forall x | x in t.used && x != session && x !in Closed(s)
      ensures exists c :: 0 <= c < |t.creations| && c != |s.creations| && t.creations[c].session == x
    {
      var c :| 0 <= c < |s.creations| && s.creations[c].session == x && Live(s, c);
      assert t.creations[c].session == x;
    }
    forall c | 0 <= c < |s.creations| ensures s.creations[c].session in Closed(s) || Live(t, c) {
      if s.creations[c].session !in Closed(s) {
        var d :| 0 <= d < |s.creations| && s.creations[d].session == s.creations[c].session && Live(s, d);
        assert d == c;
      }
    }
  }

  /** One operation of the others, in steps of the machine. */
  lemma OneOp(states: seq<System>, steps: seq<Step>, t: Table, op: Op, b: nat, mine: string, barred: set<string>,
              phase: Phase)
    returns (states': seq<System>, steps': seq<Step>)
    requires Reaches(states, steps, t, b, mine, barred, phase) && OpOrderly(t, op, mine, barred)
    ensures Reaches(states', steps', Apply(t, op), b, mine, barred, phase)
    ensures Extends(states, steps, states', steps')
  {
    hide Next, Ready, Inv, Start;
    var s := states[|steps|];
    match op {
      case Put(id, host) =>
        PutReady(s, b, mine, barred, id, host);
        states', steps' := StepOn(states, steps, Register(id, host), Next(s, Register(id, host)));
      case Remove(id) =>
        if c: nat :| HeldBy(s, c, b, id) {
          states', steps' := DropHeld(states, steps, b, mine, barred, id, c);
        } else {
          RemoveReady(s, b, mine, barred, id);
          states', steps' := StepOn(states, steps, Deregister(id), Next(s, Deregister(id)));
        }
      case Assign(id, session) =>
        if !IsIdle(t, id) { return states, steps; }
        states', steps' := OtherAssigns(states, steps, id, session, b, mine, barred);
    }
  }

  lemma DropHeld(states: seq<System>, steps: seq<Step>, b: nat, mine: string, barred: set<string>, id: string, c: nat)
    returns (states': seq<System>, steps': seq<Step>)
    requires IsRun(states, steps) && Start(states[0]) && Ready(states[|steps|], b, mine, barred)
    requires HeldBy(states[|steps|], c, b, id)
    ensures var s := states[|steps|];
            && Reaches(states', steps', s.table - {id}, b, mine, barred, s.creations[b].phase)
            && forall d: nat :: !HeldBy(states'[|steps'|], d, b, id)
    ensures Extends(states, steps, states', steps')
  {
    hide Next, Inv, Start;
    var s := states[|steps|];
    DropReady(s, b, mine, barred, id, c);
    states', steps' := StepOn(states, steps, Fail(c), Next(s, Fail(c)));
    states', steps' := StepOn(states', steps', Drop(c), Next(Next(s, Fail(c)), Drop(c)));
  }

  lemma OtherAssigns(states: seq<System>, steps: seq<Step>, id: string, session: string, b: nat, mine: string,
                     barred: set<string>)
    returns (states': seq<System>, steps': seq<Step>)
    requires IsRun(states, steps) && Start(states[0]) && Ready(states[|steps|], b, mine, barred)
    requires IsIdle(states[|steps|].table, id) && session != mine && session !in barred
    requires NobodyHolds(states[|steps|].table, session)
    ensures var s := states[|steps|];
            Reaches(states', steps', Apply(s.table, Assign(id, session)), b, mine, barred, s.creations[b].phase)
    ensures Extends(states, steps, states', steps')
  {
    hide Next, Inv, Start;
    var s := states[|steps|];
    states', steps' := states, steps;
    var c := |s.creations|;
    if session in s.used {
      c :| 0 <= c < |s.creations| && c != b && s.creations[c].session == session;
      assert Live(s, c);
    } else {
      BeginReady(s, b, mine, barred, session);
      states', steps' := StepOn(states, steps, Begin(session), Next(s, Begin(session)));
    }
    var u := states'[|steps'|];
    AssignReady(u, b, mine, barred, id, c);
    states', steps' := StepOn(states', steps', TryAssign(c, id), Next(u, TryAssign(c, id)));
  }

  lemma {:induction false} AllOps(states: seq<System>, steps: seq<Step>, t: Table, ops: seq<Op>, b: nat, mine: string,
                                  barred: set<string>, phase: Phase)
    returns (states': seq<System>, steps': seq<Step>)
    requires Reaches(states, steps, t, b, mine, barred, phase) && Orderly(t, ops, mine, barred)
    ensures Reaches(states', steps', ApplyAll(t, ops), b, mine, barred, phase)
    ensures Extends(states, steps, states', steps')
    decreases |ops|
  {
    hide Reaches, OpOrderly, Apply;
    states', steps' := states, steps;
    if ops != [] {
      states', steps' := OneOp(states, steps, t, ops[0], b, mine, barred, phase);
      var before := states';
      states', steps' := AllOps(states', steps', Apply(t, ops[0]), ops[1..], b, mine, barred, phase);
    }
  }

  /** Our creation's phase while it holds a runner, or none. */
  function Working(holds: Option<string>): Phase {
    match holds
    case None => Acquiring
    case Some(id) => Checking(id)
  }

  /** Our own assignment is a step of our creation, our own delete its drop after the failed check. */
  lemma OwnAssign(states: seq<System>, steps: seq<Step>, t: Table, id: string, b: nat, mine: string,
                  barred: set<string>)
    returns (states': seq<System>, steps': seq<Step>)
    requires Reaches(states, steps, t, b, mine, barred, Acquiring) && IsIdle(t, id)
    ensures Reaches(states', steps', Apply(t, Assign(id, mine)), b, mine, barred, Checking(id))
    ensures Extends(states, steps, states', steps') && Acquired(states', steps', |steps|, id)
  {
    hide Next, Inv, Start;
    var s := states[|steps|];
    AssignReady(s, b, mine, barred, id, b);
    states', steps' := StepOn(states, steps, TryAssign(b, id), Next(s, TryAssign(b, id)));
    assert Acquires(states'[|steps|], steps'[|steps|], id);
  }

  lemma OwnRemove(states: seq<System>, steps: seq<Step>, t: Table, id: string, b: nat, mine: string,
                  barred: set<string>)
    returns (states': seq<System>, steps': seq<Step>)
    requires Reaches(states, steps, t, b, mine, barred, Checking(id))
    ensures Reaches(states', steps', t - {id}, b, mine, barred, Acquiring)
    ensures Extends(states, steps, states', steps')
  {
    hide Next, Inv, Start;
    states', steps' := states, steps;
    if c: nat :| HeldBy(states[|steps|], c, b, id) {
      states', steps' := DropHeld(states, steps, b, mine, barred, id, c);
    }
    var s := states'[|steps'|];
    OwnDropReady(s, b, mine, barred, id);
    states', steps' := StepOn(states', steps', Fail(b), Next(s, Fail(b)));
    states', steps' := StepOn(states', steps', Drop(b), Next(Next(s, Fail(b)), Drop(b)));
    assert s.table - {id} == t - {id};
  }

  lemma OwnDropReady(s: System, b: nat, mine: string, barred: set<string>, id: string)
    requires Ready(s, b, mine, barred) && s.creations[b].phase == Checking(id)
    requires forall c: nat :: !HeldBy(s, c, b, id)
    ensures Enabled(s, Fail(b)) && Enabled(Next(s, Fail(b)), Drop(b))
    ensures var t := Next(Next(s, Fail(b)), Drop(b));
            Ready(t, b, mine, barred) && t.table == s.table - {id} && t.creations[b].phase == Acquiring
  {
    var u := Next(s, Fail(b));
    var t := Next(u, Drop(b));
    InvStep(s, Fail(b));
    InvStep(u, Drop(b));
    forall d | 0 <= d < |s.creations| && d != b && Live(s, d) ensures Live(t, d) {
      assert !HeldBy(s, d, b, id);
    }
    forall x | x in t.used && x != mine && x !in barred
      ensures exists d :: 0 <= d < |t.creations| && d != b && t.creations[d].session == x
    {
      var d :| 0 <= d < |s.creations| && d != b && s.creations[d].session == x;
      assert t.creations[d].session == x;
    }
  }

  /** Some step from `from` on takes the runner from idle to busy. */
  ghost predicate Acquired(states: seq<System>, steps: seq<Step>, from: nat, id: string) {
    |states| > |steps| && exists k :: from <= k < |steps| && Acquires(states[k], steps[k], id)
  }

  lemma AcquiredStill(states: seq<System>, steps: seq<Step>, states': seq<System>, steps': seq<Step>, from: nat,
                      later: nat, id: string)
    requires Extends(states, steps, states', steps') && |states'| > |steps'| && from <= later
    ensures Acquired(states, steps, from, id) || Acquired(states', steps', later, id) ==>
              Acquired(states', steps', from, id)
  {
    if Acquired(states, steps, from, id) {
      var k :| from <= k < |steps| && Acquires(states[k], steps[k], id);
      assert Acquires(states'[k], steps'[k], id);
    }
  }

  /** The table is that of some state of the run. */
  ghost predicate Seen(states: seq<System>, t: Table) {
    exists k :: 0 <= k < |states| && states[k].table == t
  }

  /** The trace of a call, with the others' orderly operations between its requests, continues any run. */
  lemma {:induction false} TraceRun(states: seq<System>, steps: seq<Step>, history: seq<Table>,
                                    others: nat -> seq<Op>, since: nat, t: Table, did: seq<Option<Op>>, after: Table,
                                    b: nat, mine: string, barred: set<string>, holds: Option<string>,
                                    kept: Option<string>)
    returns (states': seq<System>, steps': seq<Step>)
    requires Reaches(states, steps, t, b, mine, barred, Working(holds))
    requires Trace(history, others, since, t, did, after) && OneByOne(did, mine, holds, kept)
    requires AllOrderly(history, others, since, t, did, mine, barred)
    ensures Reaches(states', steps', after, b, mine, barred, Working(kept)) && Extends(states, steps, states', steps')
    ensures forall n | since <= n < |history| :: Seen(states', history[n])
    ensures kept.Some? ==> kept == holds || Acquired(states', steps', |steps|, kept.value)
    decreases |did|
  {
    hide Reaches, Orderly, ApplyAll, Seen, Acquired;
    states', steps' := states, steps;
    if did != [] {
      var found := history[since];
      states', steps' := AllOps(states, steps, t, others(since), b, mine, barred, Working(holds));
      SeenLast(states', steps', found, b, mine, barred, Working(holds));
      var mid, first, holds' := states', |steps'|, holds;
      match did[0] {
        case None =>
        case Some(Assign(id, _)) =>
          states', steps' := OwnAssign(states', steps', found, id, b, mine, barred);
          holds' := Some(id);
        case Some(Remove(id)) =>
          states', steps' := OwnRemove(states', steps', found, id, b, mine, barred);
          holds' := None;
      }
      var states1, steps1 := states', steps';
      states', steps' := TraceRun(states1, steps1, history, others, since + 1, Did(found, did[0]), did[1..], after, b,
                                  mine, barred, holds', kept);
      SeenStill(mid, states', found);
      if kept.Some? {
        Lengths(states', steps', after, b, mine, barred, Working(kept));
        AcquiredStill(states1, steps1, states', steps', first, |steps1|, kept.value);
        AcquiredStill(states', steps', states', steps', |steps|, first, kept.value);
      }
    }
  }

  lemma Lengths(states: seq<System>, steps: seq<Step>, t: Table, b: nat, mine: string, barred: set<string>,
                phase: Phase)
    requires Reaches(states, steps, t, b, mine, barred, phase)
    ensures |states| == |steps| + 1
  {
  }

  lemma SeenLast(states: seq<System>, steps: seq<Step>, t: Table, b: nat, mine: string, barred: set<string>,
                 phase: Phase)
    requires Reaches(states, steps, t, b, mine, barred, phase)
    ensures Seen(states, t)
  {
    assert states[|steps|].table == t;
  }

  lemma SeenStill(states: seq<System>, states': seq<System>, t: Table)
    requires states <= states' && Seen(states, t)
    ensures Seen(states', t)
  {
    var k :| 0 <= k < |states| && states[k].table == t;
    assert states'[k].table == t;
  }

  // ---- the rule can be kept ----

  /** With nobody else about there is nothing to break it. */
  lemma {:induction false} AloneOrderly(history: seq<Table>, others: nat -> seq<Op>, since: nat, t: Table,
                                        did: seq<Option<Op>>, after: Table, mine: string, barred: set<string>)
    requires Trace(history, others, since, t, did, after) && forall n :: others(n) == []
    ensures AllOrderly(history, others, since, t, did, mine, barred)
    decreases |did|
  {
    if did != [] {
      AloneOrderly(history, others, since + 1, Did(history[since], did[0]), did[1..], after, mine, barred);
    }
  }

  /** And a call that keeps to the run keeps to the rule in the eyes of every other call. */
  lemma OwnOrderly(states: seq<System>, steps: seq<Step>, t: Table, b: nat, mine: string, barred: set<string>,
                   id: string, theirs: string, closed: set<string>)
    requires Reaches(states, steps, t, b, mine, barred, Acquiring) && theirs != mine && mine !in closed
    ensures OpOrderly(t, Assign(id, mine), theirs, closed)
  {
    forall x ensures !Holds(t, x, mine) {
      AcquiringHoldsNone(states[|steps|], b, x);
    }
  }
}
