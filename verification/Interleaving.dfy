/**
 Any number of brokers creating sessions over one shared table, one atomic store operation at a time.
 A creating broker may try any runner next, whatever its scan order, so what holds here holds for every scan.
 */
module Interleaving {
  import opened Text
  import opened Ids
  import opened RunnerTable

  /** Where one createSession stands; a stopped one may leave its last runner busy. */
  datatype Phase =
    | Acquiring
    | Checking(id: string)
    | Dropping(id: string)
    | Serving(id: string)
    | Stopped(left: Option<string>)

  datatype Creation = Creation(session: string, phase: Phase)

  datatype System = System(table: Table, creations: seq<Creation>, used: set<string>)

  datatype Step =
    | Register(id: string, host: string)
    /** deregistration, closing a session, or dropping an unhealthy record found by its session */
    | Deregister(id: string)
    | Begin(session: string)
    | TryAssign(b: nat, id: string)
    | Pass(b: nat)
    | Fail(b: nat)
    | Drop(b: nat)
    | Stop(b: nat)

  predicate Enabled(s: System, step: Step) {
    match step
    case Register(_, _) => true
    case Deregister(_) => true
    case Begin(session) => session !in s.used
    case TryAssign(b, _) => b < |s.creations| && s.creations[b].phase.Acquiring?
    case Pass(b) => b < |s.creations| && s.creations[b].phase.Checking?
    case Fail(b) => b < |s.creations| && s.creations[b].phase.Checking?
    case Drop(b) => b < |s.creations| && s.creations[b].phase.Dropping?
    case Stop(b) => b < |s.creations| && !s.creations[b].phase.Serving? && !s.creations[b].phase.Stopped?
  }

  function Held(p: Phase): Option<string> {
    match p
    case Acquiring => None
    case Checking(id) => Some(id)
    case Dropping(id) => Some(id)
    case Serving(id) => Some(id)
    case Stopped(left) => left
  }

  function SetPhase(s: System, b: nat, p: Phase): System
    requires b < |s.creations|
  {
    s.(creations := s.creations[b := s.creations[b].(phase := p)])
  }

  function Next(s: System, step: Step): System
    requires Enabled(s, step)
  {
    match step
    case Register(id, host) => s.(table := Apply(s.table, Put(id, host)))
    case Deregister(id) => s.(table := Apply(s.table, Remove(id)))
    case Begin(session) =>
      s.(creations := s.creations + [Creation(session, Acquiring)], used := s.used + {session})
    case TryAssign(b, id) =>
      if IsIdle(s.table, id)
      then SetPhase(s, b, Checking(id)).(table := Apply(s.table, Assign(id, s.creations[b].session)))
      else s
    case Pass(b) => SetPhase(s, b, Serving(s.creations[b].phase.id))
    case Fail(b) => SetPhase(s, b, Dropping(s.creations[b].phase.id))
    case Drop(b) => SetPhase(s, b, Acquiring).(table := Apply(s.table, Remove(s.creations[b].phase.id)))
    case Stop(b) => SetPhase(s, b, Stopped(Held(s.creations[b].phase)))
  }

  ghost predicate IsRun(states: seq<System>, steps: seq<Step>) {
    && |states| == |steps| + 1
    && forall i | 0 <= i < |steps| :: Enabled(states[i], steps[i]) && states[i + 1] == Next(states[i], steps[i])
  }

  /** Before any createSession: whatever sessions the table holds are old ones, each on one record. */
  ghost predicate Start(s: System) {
    && s.creations == []
    && (forall id, session | Holds(s.table, id, session) :: session in s.used)
    && (forall x, y, session | Holds(s.table, x, session) && Holds(s.table, y, session) :: x == y)
  }

  /** A creation's session is held by no record but the one it works on; all sessions in play are used ones. */
  ghost predicate Inv(s: System) {
    && (forall id, session | Holds(s.table, id, session) :: session in s.used)
    && (forall x, y, session | Holds(s.table, x, session) && Holds(s.table, y, session) :: x == y)
    && (forall b | 0 <= b < |s.creations| :: s.creations[b].session in s.used)
    && (forall b, c | 0 <= b < c < |s.creations| :: s.creations[b].session != s.creations[c].session)
    && (forall b, id | 0 <= b < |s.creations| && Holds(s.table, id, s.creations[b].session) ::
          Held(s.creations[b].phase) == Some(id))
  }

  /** Only an assignment that goes through adds a holder, and only its own. */
  lemma NewHolder(s: System, step: Step, x: string, session: string)
    requires Enabled(s, step) && Holds(Next(s, step).table, x, session)
    ensures Holds(s.table, x, session)
            || (step.TryAssign? && IsIdle(s.table, step.id) && x == step.id && session == s.creations[step.b].session)
  {
  }

  /** Sessions never change, and creations only start and move through their phases. */
  lemma SameCreations(s: System, step: Step, b: nat)
    requires Enabled(s, step) && b < |s.creations|
    ensures var t := Next(s, step);
            && b < |t.creations| && t.creations[b].session == s.creations[b].session
            && (Held(t.creations[b].phase) == Held(s.creations[b].phase)
                || (step.TryAssign? && step.b == b) || (step.Drop? && step.b == b))
  {
  }

  /** An acquiring creation's session is on no record, so its assignment keeps sessions apart. */
  lemma AcquiringHoldsNone(s: System, b: nat, x: string)
    requires Inv(s) && b < |s.creations| && s.creations[b].phase.Acquiring?
    ensures !Holds(s.table, x, s.creations[b].session)
  {
    assert Holds(s.table, x, s.creations[b].session) ==> Held(s.creations[b].phase) == Some(x);
  }

  lemma InvStep(s: System, step: Step)
    requires Inv(s) && Enabled(s, step)
    ensures Inv(Next(s, step))
  {
    HoldersStep(s, step);
    CreationsStep(s, step);
  }

  lemma HoldersStep(s: System, step: Step)
    requires Inv(s) && Enabled(s, step)
    ensures var t := Next(s, step);
            && (forall id, session | Holds(t.table, id, session) :: session in t.used)
            && (forall x, y, session | Holds(t.table, x, session) && Holds(t.table, y, session) :: x == y)
  {
    hide Held;
    var t := Next(s, step);
    forall x, session | Holds(t.table, x, session)
      ensures Holds(s.table, x, session)
              || (step.TryAssign? && IsIdle(s.table, step.id) && x == step.id && session == s.creations[step.b].session)
    {
      NewHolder(s, step, x, session);
    }
    if step.TryAssign? {
      forall x ensures !Holds(s.table, x, s.creations[step.b].session) { AcquiringHoldsNone(s, step.b, x); }
    }
    assert s.used <= t.used;
  }

  lemma CreationsStep(s: System, step: Step)
    requires Inv(s) && Enabled(s, step)
    ensures var t := Next(s, step);
            && (forall b | 0 <= b < |t.creations| :: t.creations[b].session in t.used)
            && (forall b, c | 0 <= b < c < |t.creations| :: t.creations[b].session != t.creations[c].session)
            && (forall b, id | 0 <= b < |t.creations| && Holds(t.table, id, t.creations[b].session) ::
                  Held(t.creations[b].phase) == Some(id))
  {
    var t := Next(s, step);
    forall b | 0 <= b < |s.creations| ensures b < |t.creations| && t.creations[b].session == s.creations[b].session {
      SameCreations(s, step, b);
    }
    forall b, id | 0 <= b < |t.creations| && Holds(t.table, id, t.creations[b].session)
      ensures Held(t.creations[b].phase) == Some(id)
    {
      HeldStep(s, step, b, id);
    }
  }

  lemma HeldStep(s: System, step: Step, b: nat, id: string)
    requires Inv(s) && Enabled(s, step) && b < |Next(s, step).creations|
    requires Holds(Next(s, step).table, id, Next(s, step).creations[b].session)
    ensures Held(Next(s, step).creations[b].phase) == Some(id)
  {
    NewHolder(s, step, id, Next(s, step).creations[b].session);
    if b < |s.creations| { SameCreations(s, step, b); }
  }

  lemma {:induction false} InvAlways(states: seq<System>, steps: seq<Step>, n: nat)
    requires IsRun(states, steps) && Start(states[0]) && n < |states|
    ensures Inv(states[n])
  {
    if n > 0 {
      InvAlways(states, steps, n - 1);
      InvStep(states[n - 1], steps[n - 1]);
    }
  }

  /** In every reachable state each session id names at most one record, and that record is its creation's own. */
  lemma SessionNamesOneRecord(states: seq<System>, steps: seq<Step>, n: nat, x: string, y: string, session: string)
    requires IsRun(states, steps) && Start(states[0]) && n < |states|
    requires Holds(states[n].table, x, session) && Holds(states[n].table, y, session)
    ensures x == y
    ensures forall b | 0 <= b < |states[n].creations| && states[n].creations[b].session == session ::
              Held(states[n].creations[b].phase) == Some(x)
  {
    InvAlways(states, steps, n);
  }

  // ---- one acquire per registration ----

  /** Step `i` takes the runner from idle to busy. */
  predicate Acquires(s: System, step: Step, id: string) {
    step.TryAssign? && step.id == id && IsIdle(s.table, id)
  }

  predicate Deletes(s: System, step: Step, id: string) {
    id in s.table && match step
                     case Deregister(x) => x == id
                     case Drop(b) => b < |s.creations| && s.creations[b].phase == Dropping(id)
                     case _ => false
  }

  predicate Registers(s: System, step: Step, id: string) {
    step.Register? && step.id == id && Registrable(s.table, id, step.host)
  }

  /** A busy record keeps host and session through every step that does not delete it. */
  lemma {:induction false} KeepsSession(states: seq<System>, steps: seq<Step>, i: nat, j: nat, id: string)
    requires IsRun(states, steps) && i <= j < |states|
    requires id in states[i].table && states[i].table[id].Busy?
    requires forall k | i <= k < j :: !Deletes(states[k], steps[k], id)
    ensures id in states[j].table && states[j].table[id] == states[i].table[id]
  {
    if i < j {
      KeepsSession(states, steps, i, j - 1, id);
      assert states[j] == Next(states[j - 1], steps[j - 1]);
      assert !Deletes(states[j - 1], steps[j - 1], id);
    }
  }

  /** A record that is absent and later present was registered in between. */
  lemma {:induction false} ComesBackRegistered(states: seq<System>, steps: seq<Step>, i: nat, j: nat, id: string)
    returns (l: nat)
    requires IsRun(states, steps) && i <= j < |states|
    requires id !in states[i].table && id in states[j].table
    ensures i <= l < j && Registers(states[l], steps[l], id)
  {
    assert states[j] == Next(states[j - 1], steps[j - 1]);
    if id in states[j - 1].table {
      l := ComesBackRegistered(states, steps, i, j - 1, id);
    } else {
      l := j - 1;
    }
  }

  /** Between two acquires of one runner it was deleted and then registered again. */
  lemma AcquiredOncePerRegistration(states: seq<System>, steps: seq<Step>, i: nat, j: nat, id: string)
    returns (k: nat, l: nat)
    requires IsRun(states, steps) && i < j < |steps|
    requires Acquires(states[i], steps[i], id) && Acquires(states[j], steps[j], id)
    ensures i < k < l < j && Deletes(states[k], steps[k], id) && Registers(states[l], steps[l], id)
  {
    assert states[i + 1] == Next(states[i], steps[i]);
    if forall m | i + 1 <= m < j :: !Deletes(states[m], steps[m], id) {
      KeepsSession(states, steps, i + 1, j, id);
      assert false;
    }
    k :| i + 1 <= k < j && Deletes(states[k], steps[k], id);
    assert states[k + 1] == Next(states[k], steps[k]);
    l := ComesBackRegistered(states, steps, k + 1, j, id);
  }

  // ---- the host a page read showed ----

  /** The last registration of `id` among the steps from i to j. */
  ghost function LastRegister(states: seq<System>, steps: seq<Step>, i: nat, j: nat, id: string): (l: Option<nat>)
    requires IsRun(states, steps) && i <= j < |states|
    ensures l.Some? ==> i <= l.value < j && Registers(states[l.value], steps[l.value], id)
    decreases j
  {
    if i == j then None
    else if Registers(states[j - 1], steps[j - 1], id) then Some(j - 1)
    else LastRegister(states, steps, i, j - 1, id)
  }

  /** A step that does not register the id leaves a record of it only where one was, with the same host. */
  lemma HostStep(s: System, step: Step, id: string)
    requires Enabled(s, step) && id in Next(s, step).table && !Registers(s, step, id)
    ensures id in s.table && !Deletes(s, step, id)
    ensures !s.table[id].Malformed? ==>
              !Next(s, step).table[id].Malformed? && Next(s, step).table[id].host == s.table[id].host
  {
  }

  lemma HostRegistered(s: System, step: Step, id: string)
    requires Enabled(s, step) && Registers(s, step, id)
    ensures id !in s.table && id in Next(s, step).table && Next(s, step).table[id] == Idle(step.host)
  {
  }

  lemma {:induction false} HostFollows(states: seq<System>, steps: seq<Step>, i: nat, j: nat, id: string)
    requires IsRun(states, steps) && i <= j < |states|
    requires id in states[j].table && (id in states[i].table ==> !states[i].table[id].Malformed?)
    ensures !states[j].table[id].Malformed?
    ensures match LastRegister(states, steps, i, j, id)
            case None =>
              && id in states[i].table && states[j].table[id].host == states[i].table[id].host
              && forall k | i <= k < j :: !Deletes(states[k], steps[k], id)
            case Some(l) =>
              && states[j].table[id].host == steps[l].host
              && (id in states[i].table ==> exists k :: i <= k < j && Deletes(states[k], steps[k], id))
    decreases j
  {
    hide Next, Enabled, Deletes, Registers;
    if i < j {
      assert states[j] == Next(states[j - 1], steps[j - 1]);
      if Registers(states[j - 1], steps[j - 1], id) {
        HostRegistered(states[j - 1], steps[j - 1], id);
        if id in states[i].table { Disappears(states, steps, i, j - 1, id); }
      } else {
        HostStep(states[j - 1], steps[j - 1], id);
        HostFollows(states, steps, i, j - 1, id);
      }
    }
  }

  lemma {:induction false} Disappears(states: seq<System>, steps: seq<Step>, i: nat, j: nat, id: string)
    requires IsRun(states, steps) && i <= j < |states|
    requires id in states[i].table && id !in states[j].table
    ensures exists k :: i <= k < j && Deletes(states[k], steps[k], id)
    decreases j
  {
    assert states[j] == Next(states[j - 1], steps[j - 1]);
    if id in states[j - 1].table {
      assert Deletes(states[j - 1], steps[j - 1], id);
    } else {
      Disappears(states, steps, i, j - 1, id);
    }
  }

  /**
   A page read at state i showed `id` idle at a host; a broker acquires it at step j. The record it gets has that host
   exactly when nobody deleted it in between, or the last registration in between has that host.
   */
  lemma HostStands(states: seq<System>, steps: seq<Step>, i: nat, j: nat, id: string, host: string)
    requires IsRun(states, steps) && i <= j < |steps|
    requires id in states[i].table && states[i].table[id] == Idle(host) && Acquires(states[j], steps[j], id)
    ensures var l := LastRegister(states, steps, i, j, id);
            states[j].table[id].host == host
            <==> || (forall k | i <= k < j :: !Deletes(states[k], steps[k], id))
                 || (l.Some? && steps[l.value].host == host)
  {
    HostFollows(states, steps, i, j, id);
  }

  // ---- deleting by id alone ----

  /** While a creation is not acquiring, its session appears on no record that lacked it. */
  lemma {:induction false} NotGivenAgain(states: seq<System>, steps: seq<Step>, i: nat, j: nat, b: nat, id: string)
    requires IsRun(states, steps) && Start(states[0]) && i <= j < |states|
    requires b < |states[i].creations| && !states[i].creations[b].phase.Acquiring?
    requires forall k | i <= k < j :: steps[k] != Drop(b)
    requires !Holds(states[i].table, id, states[i].creations[b].session)
    ensures b < |states[j].creations| && states[j].creations[b].session == states[i].creations[b].session
    ensures !states[j].creations[b].phase.Acquiring? && !Holds(states[j].table, id, states[i].creations[b].session)
  {
    if i < j {
      NotGivenAgain(states, steps, i, j - 1, b, id);
      InvAlways(states, steps, j - 1);
      assert states[j] == Next(states[j - 1], steps[j - 1]);
    }
  }

  lemma {:induction false} StaysPut(states: seq<System>, steps: seq<Step>, i: nat, j: nat, b: nat)
    requires IsRun(states, steps) && i <= j < |states|
    requires b < |states[i].creations| && !states[i].creations[b].phase.Acquiring?
    requires forall k | i <= k < j :: steps[k] != Drop(b)
    ensures b < |states[j].creations| && states[j].creations[b].session == states[i].creations[b].session
    ensures !states[j].creations[b].phase.Acquiring?
  {
    if i < j {
      StaysPut(states, steps, i, j - 1, b);
      assert states[j] == Next(states[j - 1], steps[j - 1]);
    }
  }

  /**
   A creation acquires `id` at step i, fails its check and deletes by id at step j. The record it deletes is the one it
   acquired exactly when nobody else deleted that id in between; otherwise the id is gone, or belongs to a newer
   registration.
   */
  lemma DropHitsOwnRecord(states: seq<System>, steps: seq<Step>, i: nat, j: nat, b: nat, id: string)
    requires IsRun(states, steps) && Start(states[0]) && i < j < |steps|
    requires steps[i] == TryAssign(b, id) && IsIdle(states[i].table, id)
    requires steps[j] == Drop(b) && forall k | i < k < j :: steps[k] != Drop(b)
    ensures b < |states[j].creations|
    ensures Holds(states[j].table, id, states[j].creations[b].session)
            <==> forall k | i < k < j :: !Deletes(states[k], steps[k], id)
  {
    assert states[i + 1] == Next(states[i], steps[i]);
    StaysPut(states, steps, i + 1, j, b);
    if forall k | i < k < j :: !Deletes(states[k], steps[k], id) {
      KeepsSession(states, steps, i + 1, j, id);
    } else {
      var k :| i < k < j && Deletes(states[k], steps[k], id);
      assert states[k + 1] == Next(states[k], steps[k]);
      StaysPut(states, steps, i + 1, k + 1, b);
      NotGivenAgain(states, steps, k + 1, j, b, id);
    }
  }

  lemma StepOn(states: seq<System>, steps: seq<Step>, step: Step, next: System)
    returns (states': seq<System>, steps': seq<Step>)
    requires IsRun(states, steps) && Enabled(states[|steps|], step) && Next(states[|steps|], step) == next
    ensures IsRun(states', steps') && states' == states + [next] && steps' == steps + [step]
  {
    states', steps' := states + [next], steps + [step];
  }

  // ---- the other side of both conditions ----

  function Waiting(id: string, slot: Option<Slot>, phase: Phase): System {
    System(if slot.Some? then map[id := slot.value] else map[], [Creation("s", phase)], {"s"})
  }

  function Reregistering(id: string): seq<Step> {
    [Begin("s"), Deregister(id), Register(id, "new"), TryAssign(0, id)]
  }

  function Reregistered(id: string, k: nat): System {
    if k == 0 then System(map[id := Idle("old")], [], {})
    else if k == 1 then Waiting(id, Some(Idle("old")), Acquiring)
    else if k == 2 then Waiting(id, None, Acquiring)
    else if k == 3 then Waiting(id, Some(Idle("new")), Acquiring)
    else Waiting(id, Some(Busy("new", "s")), Checking(id))
  }

  lemma ReregisteredStep(id: string, k: nat)
    requires k < 4 && ValidRunnerId(id)
    ensures Enabled(Reregistered(id, k), Reregistering(id)[k])
    ensures Next(Reregistered(id, k), Reregistering(id)[k]) == Reregistered(id, k + 1)
  {
    hide ValidRunnerId;
  }

  /** A run in which the runner acquired was read at another host than it has. */
  lemma StaleHost() returns (states: seq<System>, steps: seq<Step>)
    ensures IsRun(states, steps) && Start(states[0]) && |steps| == 4
    ensures LAST_ID in states[1].table && states[1].table[LAST_ID] == Idle("old")
    ensures Acquires(states[3], steps[3], LAST_ID) && states[3].table[LAST_ID].host == "new"
  {
    hide Next, Enabled, ValidRunnerId;
    var id := LAST_ID;
    LastIsId();
    steps, states := Reregistering(id), seq(5, k requires 0 <= k < 5 => Reregistered(id, k));
    forall k | 0 <= k < 4 ensures Enabled(states[k], steps[k]) && states[k + 1] == Next(states[k], steps[k]) {
      ReregisteredStep(id, k);
    }
  }

  function DroppingAnother(id: string): seq<Step> {
    [Begin("s"), TryAssign(0, id), Fail(0), Deregister(id), Register(id, "new"), Drop(0)]
  }

  function Dropped(id: string, k: nat): System {
    if k == 0 then System(map[id := Idle("old")], [], {})
    else if k == 1 then Waiting(id, Some(Idle("old")), Acquiring)
    else if k == 2 then Waiting(id, Some(Busy("old", "s")), Checking(id))
    else if k == 3 then Waiting(id, Some(Busy("old", "s")), Dropping(id))
    else if k == 4 then Waiting(id, None, Dropping(id))
    else if k == 5 then Waiting(id, Some(Idle("new")), Dropping(id))
    else Waiting(id, None, Acquiring)
  }

  lemma DroppedStep(id: string, k: nat)
    requires k < 6 && ValidRunnerId(id)
    ensures Enabled(Dropped(id, k), DroppingAnother(id)[k])
    ensures Next(Dropped(id, k), DroppingAnother(id)[k]) == Dropped(id, k + 1)
  {
    hide ValidRunnerId;
  }

  /** A run in which the delete after a failed check removes a newer registration of the id. */
  lemma DropHitsNewer() returns (states: seq<System>, steps: seq<Step>)
    ensures IsRun(states, steps) && Start(states[0]) && |steps| == 6 && |states| == 7
    ensures steps[1] == TryAssign(0, LAST_ID) && IsIdle(states[1].table, LAST_ID)
    ensures steps[5] == Drop(0) && Deletes(states[5], steps[5], LAST_ID)
    ensures states[5].table[LAST_ID] == Idle("new") && LAST_ID !in states[6].table
  {
    hide Next, Enabled, ValidRunnerId;
    var id := LAST_ID;
    LastIsId();
    steps, states := DroppingAnother(id), seq(7, k requires 0 <= k < 7 => Dropped(id, k));
    forall k | 0 <= k < 6 ensures Enabled(states[k], steps[k]) && states[k + 1] == Next(states[k], steps[k]) {
      DroppedStep(id, k);
    }
  }
}
