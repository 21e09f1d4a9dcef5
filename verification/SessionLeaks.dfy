/** Runs of createSession that end with an error and leave a runner busy under a session nobody was told. */
module SessionLeaks {
  import opened Text
  import opened Ids
  import opened RunnerTable
  import opened RunnerScan
  import opened Traces
  import opened DynamoStore
  import opened BrokerRepository
  import opened BrokerTypes
  import opened BrokerService

  const START := "00000000000000000000000000000000"
  const HOST := "10.0.0.1"
  const STACK := "tokyo"
  const HEX := "0123456789abcdef0123456789abcdef"

  /** A table with the one idle runner; the registration is request 0. */
  method OneRunner(fault: nat -> bool) returns (d: DynamoRepository)
    requires !fault(0)
    ensures fresh(d) && d.Valid() && d.Alone() && d.fault == fault && d.randHex(1) == START && |d.history| == 1
    ensures d.Contents() == map[LAST_ID := Idle(HOST)]
  {
    d := new DynamoRepository(_ => [], fault, _ => START);
    assert ValidRunnerId(LAST_ID);
    NothingLands(map[]);
    var r := d.Register(LAST_ID, HOST);
    assert d.history[0] == map[] && r.Success? && r.value == ();
  }

  lemma OnlyRunner()
    ensures Direct(map[LAST_ID := Idle(HOST)], START) && IdleIds(map[LAST_ID := Idle(HOST)]) == {LAST_ID}
  {
    var t: Table := map[LAST_ID := Idle(HOST)];
    assert Less(START, LAST_ID);
    LessIrreflexive(LAST_ID);
    PickAbove(t, START, LAST_ID);
  }

  /** Every check has the oracle's verdict. */
  lemma VerdictOf(log: seq<Check>, news: seq<Check>, before: seq<Check>, verdict: Verdict)
    requires log == before + news && forall i | 0 <= i < |log| :: log[i].verdict == verdict
    ensures forall i | 0 <= i < |news| :: news[i].verdict == verdict
  {
    forall i | 0 <= i < |news| ensures news[i].verdict == verdict {
      assert log[|before| + i] == news[i];
    }
  }

  /** createSession over the one runner: page, assignment and check, and a delete that would be request 3. */
  method OnOneRunner(fault: nat -> bool, verdict: Verdict)
    returns (repo: Repository, r: Outcome<CreateSessionResult>, ghost news: seq<Check>, ghost did: seq<Option<Op>>)
    requires !fault(0) && !fault(1) && !fault(2)
    ensures repo.Valid() && repo.Alone() && repo.Faults() == fault
    ensures Trace(repo.History(), repo.Others(), 1, map[LAST_ID := Idle(HOST)], did, repo.Contents())
    ensures Creation(map[LAST_ID := Idle(HOST)], repo.Contents(), Namespaced(STACK, HEX), HEX, fault, news, r)
    ensures news != [] && news[0].at == 3 && forall i | 0 <= i < |news| :: news[i].verdict == verdict
  {
    hide Creation, Attempt, Trace, OneByOne, Kept, HostRead, Namespaced, BrokerRepository.Clean, AtMost, IdleIds,
         LastFailed, Pick;
    var d := OneRunner(fault);
    repo := Dynamo(d);
    var svc := new BrokerService(repo, STACK, (_, _) => verdict, _ => Some(HEX));
    assert repo.SettledFrom(0);
    r, news, did := svc.CreateSession();
    OnlyRunner();
    VerdictOf(svc.log, news, [], verdict);
  }

  /** The check's context ends: an error, and the runner stays busy. */
  method CheckCanceled()
    returns (repo: Repository, r: Outcome<CreateSessionResult>, ghost news: seq<Check>, ghost did: seq<Option<Op>>)
    ensures repo.Valid() && r == Err(ContextEnded) && Holds(repo.Contents(), LAST_ID, Namespaced(STACK, HEX))
    ensures repo.Alone() && Trace(repo.History(), repo.Others(), 1, map[LAST_ID := Idle(HOST)], did, repo.Contents())
    ensures Creation(map[LAST_ID := Idle(HOST)], repo.Contents(), Namespaced(STACK, HEX), HEX, repo.Faults(), news, r)
  {
    hide Creation, Trace, Namespaced, IdleIds;
    repo, r, news, did := OnOneRunner(_ => false, Canceled);
    OnlyRunner();
    LeakOf(map[LAST_ID := Idle(HOST)], repo.Contents(), Namespaced(STACK, HEX), HEX, repo.Faults(), news, r);
  }

  /** The check fails and so does the delete, request 3: an error, and the runner stays busy. */
  method DropFailed()
    returns (repo: Repository, r: Outcome<CreateSessionResult>, ghost news: seq<Check>, ghost did: seq<Option<Op>>)
    ensures repo.Valid() && r == Err(BackendFailed) && Holds(repo.Contents(), LAST_ID, Namespaced(STACK, HEX))
    ensures repo.Alone() && Trace(repo.History(), repo.Others(), 1, map[LAST_ID := Idle(HOST)], did, repo.Contents())
    ensures Creation(map[LAST_ID := Idle(HOST)], repo.Contents(), Namespaced(STACK, HEX), HEX, repo.Faults(), news, r)
  {
    hide Creation, Trace, Namespaced, IdleIds;
    repo, r, news, did := OnOneRunner(n => n == 3, Unhealthy);
    OnlyRunner();
    LeakOf(map[LAST_ID := Idle(HOST)], repo.Contents(), Namespaced(STACK, HEX), HEX, repo.Faults(), news, r);
  }

  /** With one runner, the first check decides: one that cannot pass and is not dropped leaves the runner busy. */
  lemma LeakOf(t0: Table, t1: Table, session: string, hex: string, faults: nat -> bool, news: seq<Check>,
               r: Outcome<CreateSessionResult>)
    requires Creation(t0, t1, session, hex, faults, news, r) && IdleIds(t0) == {LAST_ID}
    requires news != [] && news[0].verdict != Healthy
    requires forall i | 0 <= i < |news| :: news[i].verdict == news[0].verdict
    requires news[0].verdict == Canceled || faults(news[0].at)
    ensures Holds(t1, LAST_ID, session)
    ensures r == Err(if news[0].verdict == Canceled then ContextEnded else BackendFailed)
  {
    OneCheck(t0, t1, session, hex, faults, news, r);
    if Leaks(faults, news) { HeldHolds(t0, t1, session, news, news[|news| - 1].verdict); }
  }

  lemma OneCheck(t0: Table, t1: Table, session: string, hex: string, faults: nat -> bool, news: seq<Check>,
                 r: Outcome<CreateSessionResult>)
    requires Creation(t0, t1, session, hex, faults, news, r) && IdleIds(t0) == {LAST_ID} && news != []
    ensures |news| == 1 && news[0].id == LAST_ID
  {
    var last := |news| - 1;
    var held := r.Ok? || Leaks(faults, news);
    assert held ==> forall i | 0 <= i < last :: news[..last][i] == news[i];
    assert !held && |news| > 1 ==> news[0].id != news[1].id;
    assert held && |news| > 1 ==> news[..last][0].id in Checked(news[..last]);
    forall i | 0 <= i < |news| ensures news[i].id == LAST_ID {
      assert news[i].id in IdleIds(t0);
    }
  }
}
