/** What every run of a request through the stacks keeps. */
module RoutingTheorems {
  import opened Text
  import opened StackList
  import opened ResolveCore
  import opened BrokerTypes
  import opened BrokerAnswers
  import opened NginxScripts
  import opened Routing

  function AskedStacks(log: seq<Event>): seq<string> {
    if log == [] then []
    else (if log[0].Asked? then [log[0].stack] else []) + AskedStacks(log[1..])
  }

  /** Cross-stack forwards, delivered or lost. */
  function Forwards(log: seq<Event>): nat {
    if log == [] then 0
    else (if log[0].Hop? || log[0].Lost? then 1 else 0) + Forwards(log[1..])
  }

  lemma {:induction false} LogAppend(a: seq<Event>, b: seq<Event>)
    ensures AskedStacks(a + b) == AskedStacks(a) + AskedStacks(b)
    ensures Forwards(a + b) == Forwards(a) + Forwards(b)
  {
    if a == [] {
      assert a + b == b;
    } else {
      assert (a + b)[1..] == a[1..] + b && (a + b)[0] == a[0];
      LogAppend(a[1..], b);
      Regroup(if a[0].Asked? then [a[0].stack] else [], AskedStacks(a[1..]), AskedStacks(b));
    }
  }

  lemma OneEvent(e: Event)
    ensures AskedStacks([e]) == (if e.Asked? then [e.stack] else [])
    ensures Forwards([e]) == if e.Hop? || e.Lost? then 1 else 0
  {
    assert [e][1..] == [];
  }

  // ---- the reference: walk a list of stacks until one answers ----

  function HopRequest(w: World, rest: seq<string>, session: Option<string>): Request
    requires rest != []
  {
    Request(Host(rest[0], w.domain), rest[0], if |rest| > 1 then Join(rest[1..], COMMA) else "", session)
  }

  function AnswerStatus(w: World, n: nat): int {
    if w.down(n).Some? then if w.down(n).value == OK then INTERNAL_ERROR else w.down(n).value
    else
      match w.broker(n)
      case Ok(r) => if IsRunnerHost(One(r.runnerHost)) then w.served(n, r.runnerHost, w.apiPort) else INTERNAL_ERROR
      case Err(NoIdleRunner) => UNAVAILABLE
      case Err(_) => INTERNAL_ERROR
  }

  function Walk(w: World, order: seq<string>, session: Option<string>, n: nat): Run
    requires order != []
    decreases |order|
  {
    if !w.NoIdle(n) || |order| == 1 then Run(AnswerStatus(w, n), [Asked(order[0])], n + 1)
    else
      match w.link(n + 1)
      case Some(status) => Run(status, [Asked(order[0]), Lost(order[0], Host(order[1], w.domain))], n + 2)
      case None =>
        After([Asked(order[0]), Hop(order[0], order[1], HopRequest(w, order[1..], session))],
            Walk(w, order[1..], session, n + 2))
  }

  /**
   The run asked the first k stacks of the list, each once, passing on only after a no-idle answer over a working link;
   it ended with the first other answer, with 503 after the whole list, or with a lost forward's status.
   */
  ghost predicate Walked(w: World, order: seq<string>, n: nat, run: Run, k: nat) {
    && 1 <= k <= |order| && AskedStacks(run.log) == order[..k]
    && (forall i | 0 <= i < k - 1 :: w.NoIdle(n + 2 * i) && w.link(n + 2 * i + 1) == None)
    && (if w.NoIdle(n + 2 * k - 2) && k < |order|
        then w.link(n + 2 * k - 1) == Some(run.status) && Forwards(run.log) == k && run.clock == n + 2 * k
        else run.status == AnswerStatus(w, n + 2 * k - 2) && Forwards(run.log) == k - 1)
  }

  lemma WalkedOn(w: World, order: seq<string>, n: nat, req: Request, rest: Run, k: nat)
    requires |order| > 1 && Walked(w, order[1..], n + 2, rest, k)
    requires w.NoIdle(n) && w.link(n + 1).None?
    ensures Walked(w, order, n, After([Asked(order[0]), Hop(order[0], order[1], req)], rest), k + 1)
  {
    var head := [Asked(order[0]), Hop(order[0], order[1], req)];
    LogAppend(head, rest.log);
    assert head[1..] == [Hop(order[0], order[1], req)];
    assert AskedStacks(head[1..]) == [] && AskedStacks(head) == [order[0]];
    assert order[..k + 1] == [order[0]] + order[1..][..k];
    forall i | 0 <= i < k ensures w.NoIdle(n + 2 * i) && w.link(n + 2 * i + 1) == None {
      if i > 0 { assert n + 2 * i == n + 2 + 2 * (i - 1); }
    }
  }

  lemma {:induction false} WalkShape(w: World, order: seq<string>, session: Option<string>, n: nat) returns (k: nat)
    requires order != []
    ensures Walked(w, order, n, Walk(w, order, session, n), k)
    decreases |order|
  {
    hide HopRequest;
    if w.NoIdle(n) && |order| > 1 && w.link(n + 1).None? {
      k := WalkShape(w, order[1..], session, n + 2);
      WalkedOn(w, order, n, HopRequest(w, order[1..], session), Walk(w, order[1..], session, n + 2), k);
      k := k + 1;
    } else {
      k := 1;
      WalkEnds(w, order, session, n);
    }
  }

  lemma WalkEnds(w: World, order: seq<string>, session: Option<string>, n: nat)
    requires order != [] && !(w.NoIdle(n) && |order| > 1 && w.link(n + 1).None?)
    ensures Walked(w, order, n, Walk(w, order, session, n), 1)
  {
    hide HopRequest, AskedStacks, Forwards;
    var run := Walk(w, order, session, n);
    var asked := Asked(order[0]);
    assert order[..1] == [order[0]];
    OneEvent(asked);
    if w.NoIdle(n) && |order| > 1 {
      var lost := Lost(order[0], Host(order[1], w.domain));
      assert run.log == [asked] + [lost];
      OneEvent(lost);
      LogAppend([asked], [lost]);
    }
  }

  // ---- the real run is that walk ----

  /** One local handling, with every candidate known. */
  lemma HandleLocally(w: World, at: string, req: Request, n: nat)
    requires w.WellFormed() && at in w.stacks && ArrivalOf(w.Cfg(at), req).Local?
    requires forall x | x in PoolAt(w, at, req) :: x in w.stacks
    ensures var pool := PoolAt(w, at, req);
            Handle(w, at, req, n) ==
              if !w.NoIdle(n) || pool == [] then Run(AnswerStatus(w, n), [Asked(at)], n + 1)
              else After([Asked(at)], Send(w, at, Host(pool[0], w.domain), HopRequest(w, pool, req.session), n + 1))
  {
    hide Cut, IsInternalHost, ArrivalOf, IsRunnerHost, Host, World.WellFormed, World.Fallbacks, World.Raw,
         ListedStacks, Join, JoinWith, Send, SessionCookie, RelayedStack, RelayedRemaining, RunnerAt, ResolveJump;
    Lists(w);
    var pool := PoolAt(w, at, req);
    var res := w.Ask(at, RelayedStack(w.Cfg(at), req), RelayedRemaining(w.Cfg(at), req), n);
    NoRunnerHost();
    ResolveGoes(w.Cfg(at), req, res);
    if w.NoIdle(n) && pool != [] {
      assert pool[0] in pool;
      PoolClean(w, at, req);
      assert pool[0] != "" && HostOf(w.Cfg(at), pool[0]).Some?;
      FallbackStep(w, at, req, res);
    }
  }

  lemma NoRunnerHost()
    ensures !IsRunnerHost(Absent)
  {
  }

  /** With every candidate known, a local handling only stops for a reason the broker gave. */
  lemma StopsForTheBroker(w: World, at: string, req: Request, n: nat)
    requires w.WellFormed() && at in w.stacks && ArrivalOf(w.Cfg(at), req).Local?
    requires forall x | x in PoolAt(w, at, req) :: x in w.stacks
    ensures var jump := ResolveJump(w.Cfg(at), req,
        w.Ask(at, RelayedStack(w.Cfg(at), req), RelayedRemaining(w.Cfg(at), req), n));
            && (jump.Stop? ==> jump.reason in {NoCandidate, BrokerStatus, BadRunnerHost})
            && (jump.Stop? && jump.reason == NoCandidate
                <==> w.down(n) == Some(UNAVAILABLE) || (w.NoIdle(n) && PoolAt(w, at, req) == []))
  {
    hide Cut, IsInternalHost, ArrivalOf, IsRunnerHost, Host, World.WellFormed, World.Fallbacks, World.Raw,
         ListedStacks, Join, JoinWith, SessionCookie, RelayedStack, RelayedRemaining;
    Lists(w);
    PoolClean(w, at, req);
    var pool := PoolAt(w, at, req);
    if pool != [] {
      assert pool[0] in pool && pool[0] != "" && HostOf(w.Cfg(at), pool[0]).Some?;
    }
  }

  lemma SendToNext(w: World, from: string, pool: seq<string>, session: Option<string>, n: nat)
    requires w.WellFormed() && pool != [] && pool[0] in w.stacks && forall x | x in pool :: Clean(x)
    ensures var req := HopRequest(w, pool, session);
            && Send(w, from, Host(pool[0], w.domain), req, n) ==
                 (match w.link(n)
                  case Some(status) => Run(status, [Lost(from, Host(pool[0], w.domain))], n + 1)
                  case None => After([Hop(from, pool[0], req)], Handle(w, pool[0], req, n + 1)))
            && ArrivalOf(w.Cfg(pool[0]), req).Local? && PoolAt(w, pool[0], req) == pool[1..]
  {
    hide Handle, ArrivalOf, PoolAt, StackAt;
    FallbackLands(w, pool, session);
    HostLands(w, pool[0]);
  }

  /** A locally handled request with known candidates walks this stack and then its candidates in order. */
  lemma {:induction false} HandleWalks(w: World, at: string, req: Request, n: nat)
    requires w.WellFormed() && at in w.stacks && ArrivalOf(w.Cfg(at), req).Local?
    requires forall x | x in PoolAt(w, at, req) :: x in w.stacks
    ensures Handle(w, at, req, n) == Walk(w, [at] + PoolAt(w, at, req), req.session, n)
    decreases |PoolAt(w, at, req)|
  {
    hide Handle, ArrivalOf, Send, PoolAt, AnswerStatus, World.WellFormed, Host, Join, Walk, HopRequest, Clean;
    var pool := PoolAt(w, at, req);
    HandleLocally(w, at, req, n);
    WalkOnce(w, at, pool, req.session, n);
    if pool != [] && w.NoIdle(n) {
      assert pool[0] in pool && forall x | x in pool[1..] :: x in pool;
      PoolClean(w, at, req);
      SendToNext(w, at, pool, req.session, n + 1);
      if w.link(n + 1).None? {
        var next := HopRequest(w, pool, req.session);
        HopRequestSession(w, pool, req.session);
        HandleWalks(w, pool[0], next, n + 2);
        assert pool == [pool[0]] + pool[1..];
      }
    }
  }

  /** One stack's part of a walk. */
  lemma WalkOnce(w: World, at: string, pool: seq<string>, session: Option<string>, n: nat)
    ensures Walk(w, [at] + pool, session, n) ==
              if !w.NoIdle(n) || pool == [] then Run(AnswerStatus(w, n), [Asked(at)], n + 1)
              else match w.link(n + 1)
                   case Some(status) => After([Asked(at)], Run(status, [Lost(at, Host(pool[0], w.domain))], n + 2))
                   case None => After([Asked(at)] + [Hop(at, pool[0], HopRequest(w, pool, session))],
                       Walk(w, pool, session, n + 2))
  {
    var order := [at] + pool;
    assert order[1..] == pool;
  }

  /** A request from outside: no internal host, so its fallback headers count for nothing. */
  predicate Public(w: World, at: string, req: Request) {
    !IsInternalHost(w.Cfg(at), req.host)
  }

  lemma FirstPool(w: World, at: string, req: Request)
    requires w.WellFormed() && at in w.stacks && RelayedStack(w.Cfg(at), req) == ""
    ensures PoolAt(w, at, req) == Rotation(w.stacks, at) && forall x | x in PoolAt(w, at, req) :: x in w.stacks
    ensures |PoolAt(w, at, req)| == |w.stacks| - 1
  {
    Lists(w);
    var i :| 0 <= i < |w.stacks| && w.stacks[i] == at;
    RotationOfDistinct(w.stacks, i);
  }

  /** From stack i the whole list is tried in cyclic order, starting with the stack itself. */
  lemma FirstVisitWalks(w: World, i: nat, req: Request, n: nat)
    requires w.WellFormed() && i < |w.stacks|
    requires RelayedStack(w.Cfg(w.stacks[i]), req) == "" && ArrivalOf(w.Cfg(w.stacks[i]), req).Local?
    ensures Handle(w, w.stacks[i], req, n) == Walk(w, w.stacks[i..] + w.stacks[..i], req.session, n)
  {
    hide Handle, Walk, ArrivalOf, PoolAt, RelayedStack, Rotation;
    FirstPool(w, w.stacks[i], req);
    RotationOfDistinct(w.stacks, i);
    HandleWalks(w, w.stacks[i], req, n);
    assert [w.stacks[i]] + (w.stacks[i + 1..] + w.stacks[..i]) == w.stacks[i..] + w.stacks[..i];
  }

  // ---- owner forwarding and reassignment ----

  /** The candidates of a reassignment. */
  function ReassignPool(w: World, at: string, remaining: string): seq<string> {
    if w.captureSeesVars then Pieces(remaining) else w.Fallbacks(at)
  }

  /** The list the reassigning stack passes on: all the others but the failed owner, in list order. */
  lemma RemainingPieces(w: World, at: string, owner: string)
    requires w.WellFormed() && at in w.stacks && owner in w.stacks && owner != at
    ensures Pieces(FallbackRemaining(w.Cfg(at), owner)) == Others(w.stacks, at, owner)
    ensures |Others(w.stacks, at, owner)| == |w.stacks| - 2
    ensures forall x | x in Others(w.stacks, at, owner) :: x in w.stacks && x != at && x != owner
  {
    Lists(w);
    WithoutSubset(w.stacks, at);
    WithoutSubset(Without(w.stacks, at), owner);
    SplitUndoesJoin(Others(w.stacks, at, owner));
    WithoutMultiset(w.stacks, at);
    WithoutMultiset(Without(w.stacks, at), owner);
    var m := multiset(w.stacks);
    DistinctCounts(w.stacks, at);
    DistinctCounts(w.stacks, owner);
    assert |multiset(Without(w.stacks, at))| == |m| - 1;
    assert |multiset(Others(w.stacks, at, owner))| == |m| - 2;
  }

  lemma {:induction false} DistinctCounts(xs: seq<string>, x: string)
    requires AllDistinct(xs) && x in xs
    ensures multiset(xs)[x] == 1
  {
    assert xs == [xs[0]] + xs[1..];
    if xs[0] == x {
      assert x !in xs[1..];
      assert multiset(xs[1..])[x] == 0;
    } else {
      DistinctCounts(xs[1..], x);
    }
  }

  /** After the reassigning stack itself, the reassigned request only ever reaches stacks of its pool, in order. */
  lemma ReassignWalks(w: World, at: string, owner: string, remaining: string, n: nat) returns (k: nat)
    requires w.WellFormed() && at in w.stacks && owner != ""
    requires forall x | x in ReassignPool(w, at, remaining) :: x in w.stacks && Clean(x)
    ensures var pool := ReassignPool(w, at, remaining);
            var run := Reassign(w, at, owner, remaining, n);
            && run.log[..2] == [Reassigned(at, owner), Asked(at)]
            && k <= |pool| && AskedStacks(run.log) == [at] + pool[..k] && Forwards(run.log) <= |pool|
            && ((forall m | m >= n :: w.NoIdle(m) && w.link(m).None?) ==>
                  Forwards(run.log) == |pool| && k == |pool|)
  {
    hide Walk, Handle, Send, Reassign, HopRequest, World.WellFormed, ArrivalOf, PoolAt, Clean;
    var pool := ReassignPool(w, at, remaining);
    var run := Reassign(w, at, owner, remaining, n);
    var start := [Reassigned(at, owner), Asked(at)];
    StartCounts(at, owner);
    k := 0;
    ReassignLocally(w, at, owner, remaining, n);
    if w.NoIdle(n) && pool != [] {
      assert pool[0] in pool && forall x | x in pool[1..] :: x in pool;
      SendToNext(w, at, pool, None, n + 1);
      var tail := Send(w, at, Host(pool[0], w.domain), HopRequest(w, pool, None), n + 1);
      LogAppend(start, tail.log);
      k := SentCounts(w, at, pool, n + 1);
    }
  }

  lemma StartCounts(at: string, owner: string)
    ensures AskedStacks([Reassigned(at, owner), Asked(at)]) == [at] && Forwards([Reassigned(at, owner), Asked(at)]) == 0
  {
    OneEvent(Reassigned(at, owner));
    OneEvent(Asked(at));
    LogAppend([Reassigned(at, owner)], [Asked(at)]);
    assert [Reassigned(at, owner), Asked(at)] == [Reassigned(at, owner)] + [Asked(at)];
  }

  lemma SentCounts(w: World, at: string, pool: seq<string>, n: nat) returns (k: nat)
    requires w.WellFormed() && pool != [] && forall x | x in pool :: x in w.stacks && Clean(x)
    ensures var run := Send(w, at, Host(pool[0], w.domain), HopRequest(w, pool, None), n);
            && k <= |pool| && AskedStacks(run.log) == pool[..k] && Forwards(run.log) <= |pool|
            && ((forall m | m >= n :: w.NoIdle(m) && w.link(m).None?) ==>
                  Forwards(run.log) == |pool| && k == |pool|)
  {
    hide Walk, Handle, Send, HopRequest, World.WellFormed, ArrivalOf, PoolAt, Clean;
    assert pool[0] in pool && forall x | x in pool[1..] :: x in pool;
    SendToNext(w, at, pool, None, n);
    var run := Send(w, at, Host(pool[0], w.domain), HopRequest(w, pool, None), n);
    k := 0;
    if w.link(n).None? {
      var next := HopRequest(w, pool, None);
      HandleWalks(w, pool[0], next, n + 1);
      assert pool == [pool[0]] + pool[1..];
      assert next.session == None by { HopRequestSession(w, pool, None); }
      k := WalkShape(w, pool, None, n + 1);
      LogAppend([Hop(at, pool[0], next)], Walk(w, pool, None, n + 1).log);
      assert [Hop(at, pool[0], next)][1..] == [];
    } else {
      assert run.log[1..] == [];
    }
  }

  lemma HopRequestSession(w: World, pool: seq<string>, session: Option<string>)
    requires pool != []
    ensures HopRequest(w, pool, session).session == session
  {
  }

  lemma CleanNotEmpty()
    ensures forall x | Clean(x) :: x != ""
  {
  }

  /** How a reassignment ends at the stack itself: as any answer, but a runner without a new session is no answer. */
  function ReassignStatus(w: World, n: nat): int {
    if w.down(n).None? && w.broker(n).Ok? && !w.broker(n).value.created then INTERNAL_ERROR else AnswerStatus(w, n)
  }

  lemma ReassignLocally(w: World, at: string, owner: string, remaining: string, n: nat)
    requires w.WellFormed() && at in w.stacks && owner != ""
    requires forall x | x in ReassignPool(w, at, remaining) :: x in w.stacks && Clean(x)
    ensures var pool := ReassignPool(w, at, remaining);
            var run := Reassign(w, at, owner, remaining, n);
            var start := [Reassigned(at, owner), Asked(at)];
            if w.NoIdle(n) && pool != []
            then run == After(start, Send(w, at, Host(pool[0], w.domain), HopRequest(w, pool, None), n + 1))
            else run == Run(ReassignStatus(w, n), start, n + 1)
  {
    hide Cut, IsInternalHost, IsRunnerHost, World.WellFormed, World.Fallbacks, World.Raw, ListedStacks, Join, JoinWith,
         Send, SessionCookie, Trimmed, Rotation, NonEmpty, Clean, RunnerAt, ReassignJump;
    Lists(w);
    NoRunnerHost();
    ReassignGoes(w.Cfg(at), if w.captureSeesVars then w.Ask(at, owner, remaining, n) else w.Ask(at, "", "", n));
    assert forall x | Clean(x) :: x != "" by { CleanNotEmpty(); }
    var pool := ReassignPool(w, at, remaining);
    if pool != [] {
      assert pool[0] in pool && pool[0] != "" && HostOf(w.Cfg(at), pool[0]).Some?;
    }
  }

  /** The owner's part of a foreign request: the forward, then the owner's own walk over all stacks. */
  function OwnerPart(w: World, at: string, owner: string, session: Option<string>, n: nat): Run {
    var host := Host(owner, w.domain);
    match w.link(n)
    case Some(status) => Run(status, [Lost(at, host)], n + 1)
    case None =>
      After([Hop(at, owner, Request(host, "", "", session))],
            Walk(w, [owner] + Rotation(w.stacks, owner), session, n + 1))
  }

  predicate OwnerUnavailable(status: int) {
    status == BAD_GATEWAY || status == GATEWAY_TIMEOUT
  }

  lemma OwnerRun(w: World, at: string, req: Request, n: nat)
    requires w.WellFormed() && at in w.stacks && ArrivalOf(w.Cfg(at), req).ToOwner?
    ensures var owner := ArrivalOf(w.Cfg(at), req).owner;
            var first := OwnerPart(w, at, owner, req.session, n);
            && owner in w.stacks && owner != at
            && Handle(w, at, req, n) ==
                 if OwnerUnavailable(first.status)
                 then After(first.log, Reassign(w, at, owner, FallbackRemaining(w.Cfg(at), owner), first.clock))
                 else first
  {
    hide Walk, Reassign, Cut, IsInternalHost, World.WellFormed, World.Raw, ListedStacks, Host, Rotation, PoolAt,
         FallbackRemaining, AfterBroker;
    Lists(w);
    OwnerStep(w, at, req);
    var owner, host := ArrivalOf(w.Cfg(at), req).owner, ArrivalOf(w.Cfg(at), req).host;
    var next := Request(host, "", "", req.session);
    if w.link(n).None? {
      FirstPool(w, owner, next);
      HandleWalks(w, owner, next, n + 1);
    }
  }

  lemma OwnerPartForwards(w: World, at: string, owner: string, session: Option<string>, n: nat)
    requires w.WellFormed() && owner in w.stacks
    ensures Forwards(OwnerPart(w, at, owner, session, n).log) <= |w.stacks|
  {
    hide Walk, Host, Rotation;
    var run := OwnerPart(w, at, owner, session, n);
    if w.link(n).None? {
      var order := [owner] + Rotation(w.stacks, owner);
      var i :| 0 <= i < |w.stacks| && w.stacks[i] == owner;
      RotationOfDistinct(w.stacks, i);
      var k := WalkShape(w, order, session, n + 1);
      OneEvent(run.log[0]);
      LogAppend([run.log[0]], Walk(w, order, session, n + 1).log);
    } else {
      OneEvent(run.log[0]);
    }
  }

  /** Everyone else, and not the stack itself, is a fallback of a stack. */
  lemma FallbacksKnown(w: World, at: string)
    requires w.WellFormed() && at in w.stacks
    ensures |w.Fallbacks(at)| == |w.stacks| - 1
    ensures forall x :: x in w.Fallbacks(at) <==> x in w.stacks && x != at
  {
    hide Rotation, Join, ListedStacks, Clean;
    Lists(w);
    var i :| 0 <= i < |w.stacks| && w.stacks[i] == at;
    RotationOfDistinct(w.stacks, i);
    RotationKeepsOthers(w.stacks, at);
    SameMembers(w.stacks, Rotation(w.stacks, at), at);
  }

  lemma SameMembers(all: seq<string>, rest: seq<string>, self: string)
    requires multiset(rest) == multiset(all)[self := 0]
    ensures forall x :: x in rest <==> x in all && x != self
  {
    forall x ensures x in rest <==> x in all && x != self {
      assert x in rest <==> x in multiset(rest);
      assert x in all <==> x in multiset(all);
    }
  }

  lemma ReassignPoolKnown(w: World, at: string, owner: string)
    requires w.WellFormed() && at in w.stacks && owner in w.stacks && owner != at
    ensures var pool := ReassignPool(w, at, FallbackRemaining(w.Cfg(at), owner));
            && (forall x | x in pool :: x in w.stacks && Clean(x) && x != at)
            && |pool| == (if w.captureSeesVars then |w.stacks| - 2 else |w.stacks| - 1)
            && (owner in pool <==> !w.captureSeesVars)
  {
    hide World.Fallbacks, FallbackRemaining, Clean, Pieces, Others;
    assert forall x | x in w.stacks :: Clean(x);
    RemainingPieces(w, at, owner);
    FallbacksKnown(w, at);
  }

  /**
   The reassigned request is never offered to the reassigning stack again, and never to the failed owner,
   provided the subrequest sees the variables that carry the exclusion; if not, the owner is a candidate again.
   */
  lemma ReassignAvoids(w: World, at: string, owner: string, n: nat) returns (k: nat)
    requires w.WellFormed() && at in w.stacks && owner in w.stacks && owner != at
    ensures var remaining := FallbackRemaining(w.Cfg(at), owner);
            var asked := AskedStacks(Reassign(w, at, owner, remaining, n).log);
            && k <= |ReassignPool(w, at, remaining)| && asked == [at] + ReassignPool(w, at, remaining)[..k]
            && at !in asked[1..]
            && (w.captureSeesVars ==> owner !in asked[1..])
            && (!w.captureSeesVars ==> owner in ReassignPool(w, at, remaining))
  {
    hide Reassign, ReassignPool, FallbackRemaining;
    ReassignPoolKnown(w, at, owner);
    PiecesClean(w.Raw());
    assert owner != "" by { assert Clean(owner); }
    k := ReassignWalks(w, at, owner, FallbackRemaining(w.Cfg(at), owner), n);
    var pool := ReassignPool(w, at, FallbackRemaining(w.Cfg(at), owner));
    assert forall x | x in pool[..k] :: x in pool;
    assert ([at] + pool[..k])[1..] == pool[..k];
  }

  /** Any request from outside is forwarded between stacks at most 2N-2 times; 2N-1 if the exclusion is not seen. */
  lemma ForwardBound(w: World, at: string, req: Request, n: nat)
    requires w.WellFormed() && at in w.stacks && Public(w, at, req)
    ensures Forwards(Handle(w, at, req, n).log) <= if w.captureSeesVars then 2 * |w.stacks| - 2 else 2 * |w.stacks| - 1
  {
    var arrival := ArrivalOf(w.Cfg(at), req);
    var run := Handle(w, at, req, n);
    match arrival {
      case Refuse(_, reason) =>
        OneEvent(Refused(at, reason));
      case Local =>
        FirstPool(w, at, req);
        HandleWalks(w, at, req, n);
        var k := WalkShape(w, [at] + PoolAt(w, at, req), req.session, n);
      case ToOwner(_, owner) =>
        ForeignBound(w, at, req, n);
    }
  }

  lemma ForeignBound(w: World, at: string, req: Request, n: nat)
    requires w.WellFormed() && at in w.stacks && ArrivalOf(w.Cfg(at), req).ToOwner?
    ensures Forwards(Handle(w, at, req, n).log) <= if w.captureSeesVars then 2 * |w.stacks| - 2 else 2 * |w.stacks| - 1
  {
    hide Handle, Reassign, ReassignPool, FallbackRemaining, ArrivalOf, OwnerPart;
    var owner := ArrivalOf(w.Cfg(at), req).owner;
    OwnerRun(w, at, req, n);
    OwnerPartForwards(w, at, owner, req.session, n);
    var first := OwnerPart(w, at, owner, req.session, n);
    var remaining := FallbackRemaining(w.Cfg(at), owner);
    ReassignPoolKnown(w, at, owner);
    assert owner != "" by { assert Clean(owner); }
    assert |w.stacks| >= 2 by { assert at in w.stacks && owner in w.stacks; }
    var k := ReassignWalks(w, at, owner, remaining, first.clock);
    LogAppend(first.log, Reassign(w, at, owner, remaining, first.clock).log);
  }

  /**
   The bound is reached: nobody has an idle runner and only the owner's last fallback is lost, with a 502.
   Without the exclusion in sight the failed owner is tried once more.
   */
  lemma BoundIsReached(w: World, at: string, req: Request, n: nat)
    requires w.WellFormed() && at in w.stacks && ArrivalOf(w.Cfg(at), req).ToOwner?
    requires forall m :: w.NoIdle(m)
    requires forall m :: w.link(m) == if m == n + 2 * |w.stacks| - 2 then Some(BAD_GATEWAY) else None
    ensures Forwards(Handle(w, at, req, n).log) == if w.captureSeesVars then 2 * |w.stacks| - 2 else 2 * |w.stacks| - 1
  {
    hide Handle, Reassign, ReassignPool, FallbackRemaining, ArrivalOf, OwnerPart;
    var owner := ArrivalOf(w.Cfg(at), req).owner;
    OwnerRun(w, at, req, n);
    assert |w.stacks| >= 2 by { assert at in w.stacks && owner in w.stacks; }
    LastFallbackLost(w, at, owner, req.session, n);
    var first := OwnerPart(w, at, owner, req.session, n);
    var remaining := FallbackRemaining(w.Cfg(at), owner);
    ReassignPoolKnown(w, at, owner);
    assert owner != "" by { assert Clean(owner); }
    var k := ReassignWalks(w, at, owner, remaining, first.clock);
    LogAppend(first.log, Reassign(w, at, owner, remaining, first.clock).log);
  }

  lemma LastFallbackLost(w: World, at: string, owner: string, session: Option<string>, n: nat)
    requires w.WellFormed() && owner in w.stacks && |w.stacks| >= 2
    requires forall m :: w.NoIdle(m)
    requires forall m :: w.link(m) == if m == n + 2 * |w.stacks| - 2 then Some(BAD_GATEWAY) else None
    ensures var first := OwnerPart(w, at, owner, session, n);
            first.status == BAD_GATEWAY && Forwards(first.log) == |w.stacks| && first.clock == n + 2 * |w.stacks| - 1
  {
    hide Walk, Host, Rotation;
    var run := OwnerPart(w, at, owner, session, n);
    var order := [owner] + Rotation(w.stacks, owner);
    var i :| 0 <= i < |w.stacks| && w.stacks[i] == owner;
    RotationOfDistinct(w.stacks, i);
    var last := |order| - 2;
    assert w.link(n + 1 + 2 * last + 1) == Some(BAD_GATEWAY);
    var k := WalkShape(w, order, session, n + 1);
    OneEvent(run.log[0]);
    LogAppend([run.log[0]], Walk(w, order, session, n + 1).log);
  }

  /** After the reassignment by `at` the failed owner is asked again. */
  ghost predicate AskedAgain(log: seq<Event>, at: string, owner: string) {
    exists i, j :: 0 <= i < j < |log| && log[i] == Reassigned(at, owner) && log[j] == Asked(owner)
  }

  lemma {:induction false} AskedAt(log: seq<Event>, x: string) returns (j: nat)
    requires x in AskedStacks(log)
    ensures j < |log| && log[j] == Asked(x)
    decreases |log|
  {
    if log[0] == Asked(x) {
      j := 0;
    } else {
      j := AskedAt(log[1..], x);
      j := j + 1;
    }
  }

  /** In that run the failed owner is asked again unless the exclusion is seen. */
  lemma OwnerAskedAgain(w: World, at: string, req: Request, n: nat)
    requires w.WellFormed() && at in w.stacks && ArrivalOf(w.Cfg(at), req).ToOwner? && !w.captureSeesVars
    requires forall m :: w.NoIdle(m)
    requires forall m :: w.link(m) == if m == n + 2 * |w.stacks| - 2 then Some(BAD_GATEWAY) else None
    ensures AskedAgain(Handle(w, at, req, n).log, at, ArrivalOf(w.Cfg(at), req).owner)
  {
    hide Handle, Reassign, ReassignPool, FallbackRemaining, ArrivalOf, OwnerPart, AskedStacks;
    var owner := ArrivalOf(w.Cfg(at), req).owner;
    OwnerRun(w, at, req, n);
    assert |w.stacks| >= 2 by { assert at in w.stacks && owner in w.stacks; }
    LastFallbackLost(w, at, owner, req.session, n);
    var first := OwnerPart(w, at, owner, req.session, n);
    var remaining := FallbackRemaining(w.Cfg(at), owner);
    ReassignPoolKnown(w, at, owner);
    assert owner != "" by { assert Clean(owner); }
    var k := ReassignWalks(w, at, owner, remaining, first.clock);
    var pool := ReassignPool(w, at, remaining);
    var again := Reassign(w, at, owner, remaining, first.clock).log;
    assert pool[..k] == pool;
    var j := AskedAt(again, owner);
    var log := Handle(w, at, req, n).log;
    assert log == first.log + again && again[0] == again[..2][0];
    assert log[|first.log|] == Reassigned(at, owner) && log[|first.log| + j] == Asked(owner);
  }

  lemma FirstTwo(stacks: seq<string>)
    requires |stacks| >= 2 && AllDistinct(stacks) && forall s | s in stacks :: Clean(s)
    ensures stacks[0] != stacks[1] && stacks[1] != ""
  {
    assert stacks[1] in stacks && Clean(stacks[1]);
  }

  /** For every list of two names or more there is such a world and a request from outside that needs the bound. */
  lemma BoundRun(stacks: seq<string>, domain: string, sees: bool) returns (w: World, at: string, req: Request)
    requires |stacks| >= 2 && AllDistinct(stacks) && domain != ""
    requires forall s | s in stacks :: Clean(s) && '.' !in s && '_' !in s
    ensures w.WellFormed() && w.stacks == stacks && w.captureSeesVars == sees && at in stacks && Public(w, at, req)
    ensures Forwards(Handle(w, at, req, 0).log) == if sees then 2 * |stacks| - 2 else 2 * |stacks| - 1
    ensures !sees ==> exists owner :: owner in stacks && AskedAgain(Handle(w, at, req, 0).log, at, owner)
  {
    hide Handle, AskedAgain, Clean, AllDistinct, Forwards;
    var lost := 2 * |stacks| - 2;
    w := World(stacks, domain, 0, _ => Err(NoIdleRunner), _ => None, (_, _, _) => OK,
               m => if m == lost then Some(BAD_GATEWAY) else None, sees);
    var owner := stacks[1];
    at, req := stacks[0], Request("", "", "", Some(Namespaced(owner, "")));
    FirstTwo(stacks);
    assert owner in stacks;
    CookieNamesIssuer(owner, "");
    Lists(w);
    assert ArrivalOf(w.Cfg(at), req).ToOwner?;
    BoundIsReached(w, at, req, 0);
    if !sees { OwnerAskedAgain(w, at, req, 0); }
  }

  // ---- every forwarded hop is taken for what it is ----

  /** No refusal, and every hop arrives on an internal host, with no fallback header or one naming the receiver. */
  ghost predicate WellAddressed(w: World, log: seq<Event>) {
    forall e | e in log :: !e.Refused? && (e.Hop? ==>
      && e.to in w.stacks && IsInternalHost(w.Cfg(e.to), e.request.host)
      && (e.request.fallbackStack == "" || e.request.fallbackStack == e.to))
  }

  lemma {:induction false} WalkWellAddressed(w: World, order: seq<string>, session: Option<string>, n: nat)
    requires w.WellFormed() && order != [] && forall x | x in order :: x in w.stacks
    ensures WellAddressed(w, Walk(w, order, session, n).log)
    decreases |order|
  {
    hide World.WellFormed, IsInternalHost, Host, Join;
    if w.NoIdle(n) && |order| > 1 && w.link(n + 1).None? {
      assert order[1] in order && forall x | x in order[1..] :: x in order;
      HostLands(w, order[1]);
      WalkWellAddressed(w, order[1..], session, n + 2);
    }
  }

  lemma ReassignWellAddressed(w: World, at: string, owner: string, n: nat)
    requires w.WellFormed() && at in w.stacks && owner in w.stacks && owner != at
    ensures WellAddressed(w, Reassign(w, at, owner, FallbackRemaining(w.Cfg(at), owner), n).log)
  {
    hide Walk, Handle, Send, Reassign, World.WellFormed, ArrivalOf, PoolAt, Clean, IsInternalHost, FallbackRemaining,
         ReassignPool, Host;
    var remaining := FallbackRemaining(w.Cfg(at), owner);
    var pool := ReassignPool(w, at, remaining);
    ReassignPoolKnown(w, at, owner);
    assert owner != "" by { ListedNotEmpty(w, owner); }
    ReassignLocally(w, at, owner, remaining, n);
    if w.NoIdle(n) && pool != [] {
      assert pool[0] in pool && forall x | x in pool[1..] :: x in pool;
      SendToNext(w, at, pool, None, n + 1);
      HostLands(w, pool[0]);
      if w.link(n + 1).None? {
        HandleWalks(w, pool[0], HopRequest(w, pool, None), n + 2);
        WalkWellAddressed(w, [pool[0]] + pool[1..], None, n + 2);
      }
    }
  }

  lemma ListedNotEmpty(w: World, s: string)
    requires w.WellFormed() && s in w.stacks
    ensures s != ""
  {
    assert Clean(s);
  }

  /**
   A request from outside is refused only where it arrives, for a cookie naming a stack nobody knows; otherwise no
   hop of its run is ever refused: each arrives on a host the receiver accepts and carries no other stack's name.
   */
  lemma HopsWellAddressed(w: World, at: string, req: Request, n: nat)
    requires w.WellFormed() && at in w.stacks && Public(w, at, req)
    ensures var owner := CookieStack(req.session);
            if owner.Some? && owner.value !in w.stacks
            then Handle(w, at, req, n) == Run(INTERNAL_ERROR, [Refused(at, UnknownOwner)], n)
            else WellAddressed(w, Handle(w, at, req, n).log)
  {
    Lists(w);
    match ArrivalOf(w.Cfg(at), req) {
      case Refuse(_, _) =>
      case Local =>
        LocalWellAddressed(w, at, req, n);
      case ToOwner(_, owner) =>
        ForeignWellAddressed(w, at, req, n);
    }
  }

  lemma LocalWellAddressed(w: World, at: string, req: Request, n: nat)
    requires w.WellFormed() && at in w.stacks && Public(w, at, req) && ArrivalOf(w.Cfg(at), req).Local?
    ensures WellAddressed(w, Handle(w, at, req, n).log)
  {
    hide Handle, Walk, ArrivalOf, PoolAt, World.WellFormed, WellAddressed, IsInternalHost;
    FirstPool(w, at, req);
    HandleWalks(w, at, req, n);
    WalkWellAddressed(w, [at] + PoolAt(w, at, req), req.session, n);
  }

  lemma ForeignWellAddressed(w: World, at: string, req: Request, n: nat)
    requires w.WellFormed() && at in w.stacks && ArrivalOf(w.Cfg(at), req).ToOwner?
    ensures WellAddressed(w, Handle(w, at, req, n).log)
  {
    hide Handle, Walk, Reassign, ArrivalOf, World.WellFormed, FallbackRemaining, Rotation, IsInternalHost, Host;
    OwnerRun(w, at, req, n);
    var owner := ArrivalOf(w.Cfg(at), req).owner;
    var first := OwnerPart(w, at, owner, req.session, n);
    HostLands(w, owner);
    FallbacksKnown(w, owner);
    Lists(w);
    WalkWellAddressed(w, [owner] + Rotation(w.stacks, owner), req.session, n + 1);
    ReassignWellAddressed(w, at, owner, first.clock);
  }

  // ---- a session finds its stack ----

  /** The cookie of a session says which stack issued it. */
  lemma CookieNamesIssuer(owner: string, hex: string)
    requires owner != ""
    ensures CookieStack(Some(Namespaced(owner, hex))) == Some(owner) <==> SEPARATOR !in owner
  {
    SplitNamespaced(owner, hex);
    CutSound(Namespaced(owner, hex), SEPARATOR);
  }

  /**
   A session's request reaches the stack that issued it in at most one forward, whichever stack it enters, as long
   as the forward is delivered and the owner answers.
   */
  lemma OwnerReached(w: World, at: string, owner: string, hex: string, req: Request, n: nat, r: ResolveResult)
    requires w.WellFormed() && at in w.stacks && owner in w.stacks && Public(w, at, req)
    requires req.session == Some(Namespaced(owner, hex))
    requires w.broker(if at == owner then n else n + 1) == Ok(r) && IsRunnerHost(One(r.runnerHost))
    requires w.down(if at == owner then n else n + 1).None?
    requires at != owner ==> w.link(n).None? && !OwnerUnavailable(w.served(n + 1, r.runnerHost, w.apiPort))
    ensures Handle(w, at, req, n) ==
              if at == owner then Run(w.served(n, r.runnerHost, w.apiPort), [Asked(owner)], n + 1)
              else Run(w.served(n + 1, r.runnerHost, w.apiPort),
                  [Hop(at, owner, Request(Host(owner, w.domain), "", "", req.session)), Asked(owner)], n + 2)
  {
    hide Handle, Walk, World.WellFormed, IsRunnerHost, Host, Namespaced, Reassign, IsInternalHost;
    Lists(w);
    ListedNotEmpty(w, owner);
    NoSeparator(w, owner);
    CookieNamesIssuer(owner, hex);
    if at == owner {
      FirstPool(w, at, req);
      HandleLocally(w, at, req, n);
    } else {
      OwnerRun(w, at, req, n);
      var order := [owner] + Rotation(w.stacks, owner);
      assert Walk(w, order, req.session, n + 1) == Run(w.served(n + 1, r.runnerHost, w.apiPort), [Asked(owner)], n + 2)
          by { AnsweredAtOnce(w, order, req.session, n + 1, r); }
      var hop := Hop(at, owner, Request(Host(owner, w.domain), "", "", req.session));
      assert [hop] + [Asked(owner)] == [hop, Asked(owner)];
    }
  }

  lemma NoSeparator(w: World, s: string)
    requires w.WellFormed() && s in w.stacks
    ensures SEPARATOR !in s
  {
  }

  lemma AnsweredAtOnce(w: World, order: seq<string>, session: Option<string>, n: nat, r: ResolveResult)
    requires order != [] && w.down(n).None? && w.broker(n) == Ok(r) && IsRunnerHost(One(r.runnerHost))
    ensures Walk(w, order, session, n) == Run(w.served(n, r.runnerHost, w.apiPort), [Asked(order[0])], n + 1)
  {
  }
}
