/** The repository interface: either store, behind one contract over the shared table. */
module BrokerRepository {
  import opened RunnerTable
  import opened RunnerHistory
  import opened RunnerScan
  import opened DynamoStore
  import opened FirestoreStore

  datatype Repository = Dynamo(dynamo: DynamoRepository) | Firestore(firestore: FirestoreRepository) {

    ghost function Footprint(): set<object> {
      match this
      case Dynamo(d) => {d}
      case Firestore(f) => {f}
    }

    ghost predicate Valid() reads Footprint() {
      match this
      case Dynamo(d) => d.Valid()
      case Firestore(f) => f.Valid()
    }

    ghost function Contents(): Table reads Footprint() {
      match this
      case Dynamo(d) => d.Contents()
      case Firestore(f) => f.Contents()
    }

    /** The table as each request so far found it; its length numbers the next request. */
    ghost function History(): seq<Table> reads Footprint() {
      match this
      case Dynamo(d) => d.history
      case Firestore(f) => f.history
    }

    /** What other brokers get done before each request. */
    ghost function Others(): nat -> seq<Op> {
      match this
      case Dynamo(d) => d.others
      case Firestore(f) => f.others
    }

    /** Which requests fail. */
    ghost function Faults(): nat -> bool {
      match this
      case Dynamo(d) => d.fault
      case Firestore(f) => f.fault
    }

    ghost predicate Alone() {
      match this
      case Dynamo(d) => d.Alone()
      case Firestore(f) => f.Alone()
    }

    /** From request `n` on, nobody registers a runner. */
    ghost predicate SettledFrom(n: nat) {
      forall m: nat, op | n <= m && op in Others()(m) :: !op.Put?
    }

    /** From request `n` on, every request fails, as after the end of a context. */
    ghost predicate FailsFrom(n: nat) {
      forall m: nat | n <= m :: Faults()(m)
    }

    /** At some time registrations stop or the context ends. */
    ghost predicate Ends() { exists n :: SettledFrom(n) || FailsFrom(n) }

    /** No other broker uses this session id. */
    ghost predicate Ours(session: string) {
      forall n, op | op in Others()(n) :: !(op.Assign? && op.session == session)
    }

    method AcquireIdle(sessionID: string) returns (r: Result<Runner>)
      requires Valid()
      modifies Footprint()
      ensures Valid() && old(History()) <= History() && |History()| > |old(History())|
      ensures r.Failure? ==> r.error in {ErrNoIdleRunner, ErrBackend} && Contents() == History()[|History()| - 1]
      ensures r == Failure(ErrNoIdleRunner) ==> forall id :: SawUnavailable(History(), |old(History())|, id)
      ensures r == Failure(ErrBackend) ==> Faults()(|History()| - 1)
      ensures r != Failure(ErrBackend) ==> Unfailed(Faults(), |old(History())|, |History()|)
      ensures Follows(History(), Others(), |old(History())|, old(Contents()))
      ensures r.Success? ==>
                && Granted(History(), |old(History())|, r.value, sessionID, Contents())
                && HostRead(History(), Others(), |old(History())|, r.value)
      ensures Alone() ==> AloneAnswer(old(Contents()), Contents(), sessionID, r)
      ensures Alone() && this.Dynamo? && Direct(old(Contents()), dynamo.randHex(|old(History())|)) ==>
                && |History()| <= |old(History())| + 2
                && if r.Success? then |History()| == |old(History())| + 2 else r.error == ErrBackend
    {
      ghost var t := Contents();
      match this {
        case Dynamo(d) =>
          r := d.AcquireIdle(sessionID);
        case Firestore(f) =>
          r := f.AcquireIdle(sessionID);
      }
    }

    method Delete(runnerID: string) returns (r: Result<()>)
      requires Valid()
      modifies Footprint()
      ensures Valid() && old(History()) <= History() && |History()| == |old(History())| + 1
      ensures History()[|History()| - 1] == ApplyAll(old(Contents()), Others()(|old(History())|))
      ensures r.Success? ==> Contents() == History()[|History()| - 1] - {runnerID}
      ensures r.Failure? ==> r.error == ErrBackend && Contents() == History()[|History()| - 1]
      ensures r.Failure? <==> Faults()(|old(History())|)
    {
      match this {
        case Dynamo(d) => r := d.Delete(runnerID);
        case Firestore(f) => r := f.Delete(runnerID);
      }
    }

    method FindBySessionID(sessionID: string) returns (r: Result<Runner>)
      requires Valid()
      modifies Footprint()
      ensures Valid() && old(History()) <= History() && |History()| == |old(History())| + 1
      ensures Contents() == History()[|History()| - 1] == ApplyAll(old(Contents()), Others()(|old(History())|))
      ensures r.Success? ==>
                Holds(Contents(), r.value.runnerId, sessionID) && (sessionID != "" ==> Reads(Contents(), r.value))
      ensures r == Failure(ErrNotFound) ==> NobodyHolds(Contents(), sessionID)
      ensures r.Failure? && r.error != ErrNotFound ==>
                r.error == ErrBackend && (sessionID == "" || Faults()(|old(History())|) || !Clean(Contents()))
      ensures Faults()(|old(History())|) ==> r == Failure(ErrBackend)
    {
      match this {
        case Dynamo(d) => r := d.FindBySessionID(sessionID);
        case Firestore(f) => r := f.FindBySessionID(sessionID);
      }
    }
  }

  /** An acquire nobody disturbs: an idle runner and nothing else changes, or there is none. */
  ghost predicate AloneAnswer(t0: Table, t1: Table, sessionID: string, r: Result<Runner>) {
    match r
    case Success(runner) =>
      && IsIdle(t0, runner.runnerId)
      && runner == Runner(runner.runnerId, StateBusy, sessionID, t0[runner.runnerId].host)
      && t1 == Apply(t0, Assign(runner.runnerId, sessionID))
    case Failure(e) => t1 == t0 && (e == ErrNoIdleRunner ==> IdleIds(t0) == {})
  }

  ghost predicate Clean(t: Table) {
    forall id | id in t :: !t[id].Malformed?
  }

  lemma {:induction false} CleanStays(t: Table, ops: seq<Op>)
    requires Clean(t)
    ensures Clean(ApplyAll(t, ops))
    decreases |ops|
  {
    if ops != [] { CleanStays(Apply(t, ops[0]), ops[1..]); }
  }

  /**
   Two brokers, one per store, over tables with the same contents and drawing the same scan start:
   an undisturbed acquire answers the same and leaves the same table, whatever the representation.
   */
  method AcquireFromBoth(d: DynamoRepository, f: FirestoreRepository, sessionID: string)
    returns (rd: Result<Runner>, rf: Result<Runner>)
    requires d.Valid() && d.Alone() && f.Valid() && f.Alone()
    requires d.Contents() == f.Contents() && d.randHex(d.clock) == f.randHex(f.clock)
    modifies d, f
    ensures rd != Failure(ErrBackend) && rf != Failure(ErrBackend) ==> rd == rf && d.Contents() == f.Contents()
  {
    rd := d.AcquireIdle(sessionID);
    rf := f.AcquireIdle(sessionID);
  }

  // ---- what follows from a call's requests landing between the others' ----

  /** The others' operations never add a holder of a session they do not use. */
  lemma {:induction false} HoldersShrink(t: Table, ops: seq<Op>, session: string)
    requires forall op | op in ops :: !(op.Assign? && op.session == session)
    ensures forall x | Holds(ApplyAll(t, ops), x, session) :: Holds(t, x, session)
    decreases |ops|
  {
    if ops != [] {
      assert ops[0] in ops && forall op | op in ops[1..] :: op in ops;
      HoldersShrink(Apply(t, ops[0]), ops[1..], session);
    }
  }

  lemma {:induction false} StillNobody(history: seq<Table>, others: nat -> seq<Op>, since: nat, t: Table,
                                       session: string, n: nat)
    requires Follows(history, others, since, t) && since <= n < |history| && NobodyHolds(t, session)
    requires forall m, op | op in others(m) :: !(op.Assign? && op.session == session)
    ensures NobodyHolds(history[n], session)
    decreases n
  {
    assert Finds(history, others, since, t, n);
    if n == since {
      HoldersShrink(t, others(n), session);
    } else {
      StillNobody(history, others, since, t, session, n - 1);
      HoldersShrink(history[n - 1], others(n), session);
    }
  }

  lemma {:induction false} StillClean(history: seq<Table>, others: nat -> seq<Op>, since: nat, t: Table, n: nat)
    requires Follows(history, others, since, t) && since <= n < |history| && Clean(t)
    ensures Clean(history[n])
    decreases n
  {
    assert Finds(history, others, since, t, n);
    if n == since {
      CleanStays(t, others(n));
    } else {
      StillClean(history, others, since, t, n - 1);
      CleanStays(history[n - 1], others(n));
    }
  }

  lemma {:induction false} IdleOnlyShrinks(history: seq<Table>, others: nat -> seq<Op>, since: nat, t: Table, n: nat)
    requires Follows(history, others, since, t) && since <= n < |history|
    requires forall m: nat, op | since <= m && op in others(m) :: !op.Put?
    ensures IdleIds(history[n]) <= IdleIds(t)
    decreases n
  {
    assert Finds(history, others, since, t, n);
    if n == since {
      IdleShrinks(t, others(n));
    } else {
      IdleOnlyShrinks(history, others, since, t, n - 1);
      IdleShrinks(history[n - 1], others(n));
    }
  }
}
