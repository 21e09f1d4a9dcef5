/**
 A request travelling between stacks: every hop is resolve.lua at the receiving stack, the broker's answer there,
 and the nginx location jumped to. Brokers, runners and links answer arbitrarily, or not at all.
 */
module Routing {
  import opened Text
  import opened StackList
  import opened ResolveCore
  import opened BrokerTypes
  import opened BrokerAnswers
  import opened NginxScripts

  datatype World = World(
    stacks: seq<string>,
    domain: string,
    apiPort: nat,
    /** what the n-th event's broker call returns from its service */
    broker: nat -> Outcome<ResolveResult>,
    /** when the n-th event's broker call gets no answer from the broker, the status nginx makes up for it */
    down: nat -> Option<int>,
    /** the status that the runner of a host and port, reached at the n-th event, answers with */
    served: (nat, string, nat) -> int,
    /** None when the n-th event's forward is delivered, else the status nginx makes up for it */
    link: nat -> Option<int>,
    /** whether the /_resolve_reassigned subrequest sees the $fwd_fallback_* variables of its parent */
    captureSeesVars: bool)
  {
    /** One shared list of distinct, clean names without '.' and '_'. */
    ghost predicate WellFormed() {
      && stacks != [] && AllDistinct(stacks) && domain != ""
      && forall s | s in stacks :: Clean(s) && '.' !in s && '_' !in s
    }

    function Raw(): string { Join(stacks, COMMA) }

    function Cfg(at: string): Config { Config(at, domain, ListedStacks(Raw()), apiPort) }

    function Fallbacks(at: string): seq<string> { Rotation(Pieces(Raw()), at) }

    function Ask(at: string, fallbackStack: string, fallbackRemaining: string, n: nat): Response {
      match down(n)
      case Some(status) => Response(status, Absent, Absent, Absent, Absent, Absent, Absent, Absent)
      case None => ResolveAnswer(at, Fallbacks(at), fallbackStack, fallbackRemaining, broker(n))
    }

    /** The status a proxied request gets: that of the runner it reaches, or nginx's own for no such address. */
    function Reached(n: nat, url: string): int {
      match RunnerAt(url)
      case None => BAD_GATEWAY
      case Some((host, port)) => served(n, host, port)
    }

    /** The broker answers, and has no idle runner. */
    predicate NoIdle(n: nat) { down(n).None? && broker(n) == Err(NoIdleRunner) }
  }

  datatype Event =
    | Asked(stack: string)
    | Hop(from: string, to: string, request: Request)
    | Lost(from: string, host: string)
    | Refused(stack: string, reason: Reason)
    | Reassigned(stack: string, owner: string)

  /** The status the client gets, what happened, and the next event number. */
  datatype Run = Run(status: int, log: seq<Event>, clock: nat)

  function After(events: seq<Event>, run: Run): Run {
    Run(run.status, events + run.log, run.clock)
  }

  /** The stack a forward host resolves to. */
  function StackAt(w: World, host: string): Option<string> {
    match Cut(host, '.')
    case None => None
    case Some(parts) => if parts.0 in w.stacks && parts.1 == w.domain then Some(parts.0) else None
  }

  lemma StackAtExactly(w: World, host: string, s: string)
    ensures StackAt(w, host) == Some(s) <==> s in w.stacks && '.' !in s && host == s + "." + w.domain
  {
    CutSound(host, '.');
    if '.' !in s && host == s + "." + w.domain { CutFirst(s, w.domain, '.'); }
  }

  /** 2 when the request is still to be brought to its owner, 1 before its first fallback, 0 afterwards. */
  function Phase(w: World, at: string, req: Request): nat {
    if ArrivalOf(w.Cfg(at), req).ToOwner? then 2
    else if RelayedStack(w.Cfg(at), req) == "" then 1 else 0
  }

  function PoolAt(w: World, at: string, req: Request): seq<string> {
    Pool(w.Fallbacks(at), RelayedStack(w.Cfg(at), req), RelayedRemaining(w.Cfg(at), req))
  }

  // ---- every forward lands on a stack that takes it for what it is ----

  lemma Lists(w: World)
    requires w.WellFormed()
    ensures ListedStacks(w.Raw()) == Pieces(w.Raw()) == w.stacks
  {
    ListsAgree(w.stacks);
  }

  lemma HostLands(w: World, s: string)
    requires w.WellFormed() && s in w.stacks
    ensures StackAt(w, Host(s, w.domain)) == Some(s)
    ensures IsInternalHost(w.Cfg(s), Host(s, w.domain))
  {
    CutFirst(s, w.domain, '.');
    Lists(w);
  }

  lemma {:induction false} WithoutSubset(xs: seq<string>, x: string)
    ensures forall y | y in Without(xs, x) :: y in xs && y != x
  {
    if xs != [] {
      WithoutSubset(xs[1..], x);
      assert forall y | y in xs[1..] :: y in xs;
    }
  }

  lemma RotationSubset(all: seq<string>, self: string)
    ensures forall x | x in Rotation(all, self) :: x in all
  {
    if self in all {
      var p := FirstIndex(all, self);
      WithoutSubset(all[p + 1..], self);
    }
  }

  lemma PoolShrinks(pool: seq<string>)
    requires pool != [] && forall x | x in pool :: Clean(x)
    ensures Pieces(if |pool| > 1 then Join(pool[1..], COMMA) else "") == pool[1..]
  {
    assert forall x | x in pool[1..] :: x in pool;
    SplitUndoesJoin(pool[1..]);
  }

  lemma PoolClean(w: World, at: string, req: Request)
    requires w.WellFormed() && at in w.stacks
    ensures forall x | x in PoolAt(w, at, req) :: Clean(x)
  {
    hide Rotation, World.WellFormed, Pieces, World.Raw, RelayedStack, RelayedRemaining, Clean;
    PiecesClean(RelayedRemaining(w.Cfg(at), req));
    PiecesClean(w.Raw());
    RotationSubset(Pieces(w.Raw()), at);
  }

  // ---- the run ----

  function Served(w: World, action: Action, n: nat): int {
    if action.Serve? then w.Reached(n, action.runnerUrl) else INTERNAL_ERROR
  }

  function Handle(w: World, at: string, req: Request, n: nat): Run
    requires w.WellFormed() && at in w.stacks
    decreases Phase(w, at, req), |PoolAt(w, at, req)|, 1
  {
    var cfg := w.Cfg(at);
    var res := w.Ask(at, RelayedStack(cfg, req), RelayedRemaining(cfg, req), n);
    var arrival := ArrivalOf(cfg, req);
    match ResolveJump(cfg, req, res)
    case Stop(status, reason) =>
      if arrival.Local? then Run(status, [Asked(at)], n + 1) else Run(status, [Refused(at, reason)], n)
    case Proxy(action) => Run(Served(w, action, n), [Asked(at)], n + 1)
    case Exec(location, host, stack, remaining) =>
      if location == ForwardOwner then
        OwnerStep(w, at, req);
        // the owner is sent the cookie and no fallback headers
        var first := Send(w, at, host, Request(host, "", "", req.session), n);
        if first.status == BAD_GATEWAY || first.status == GATEWAY_TIMEOUT
        then After(first.log, Reassign(w, at, stack, remaining, first.clock)) else first
      else
        FallbackStep(w, at, req, res);
        After([Asked(at)], Send(w, at, host, Request(host, stack, remaining, req.session), n + 1))
  }

  function TargetPhase(w: World, host: string, req: Request): nat {
    match StackAt(w, host)
    case None => 0
    case Some(to) => Phase(w, to, req)
  }

  function TargetPool(w: World, host: string, req: Request): nat {
    match StackAt(w, host)
    case None => 0
    case Some(to) => |PoolAt(w, to, req)|
  }

  function Send(w: World, from: string, host: string, req: Request, n: nat): Run
    requires w.WellFormed()
    decreases TargetPhase(w, host, req), TargetPool(w, host, req), 2
  {
    match w.link(n)
    case Some(status) => Run(status, [Lost(from, host)], n + 1)
    case None =>
      match StackAt(w, host)
      case None => Run(BAD_GATEWAY, [Lost(from, host)], n + 1)
      case Some(to) => After([Hop(from, to, req)], Handle(w, to, req, n + 1))
  }

  /** The owner answered 502 or 504: this stack's broker is asked without cookie, the rest may be tried. */
  function Reassign(w: World, at: string, owner: string, remaining: string, n: nat): Run
    requires w.WellFormed() && at in w.stacks
    decreases 1, 0, 0
  {
    var res := if w.captureSeesVars then w.Ask(at, owner, remaining, n) else w.Ask(at, "", "", n);
    var start := [Reassigned(at, owner), Asked(at)];
    match ReassignJump(w.Cfg(at), res)
    case Stop(status, _) => Run(status, start, n + 1)
    case Proxy(action) => Run(Served(w, action, n), start, n + 1)
    case Exec(_, host, stack, rest) =>
      ReassignStep(w, at, res);
      After(start, Send(w, at, host, Request(host, stack, rest, None), n + 1))
  }

  lemma OwnerStep(w: World, at: string, req: Request)
    requires w.WellFormed() && at in w.stacks && ArrivalOf(w.Cfg(at), req).ToOwner?
    ensures var a := ArrivalOf(w.Cfg(at), req);
            && StackAt(w, a.host) == Some(a.owner) && a.host == Host(a.owner, w.domain) && a.owner != at
            && Phase(w, a.owner, Request(a.host, "", "", req.session)) == 1
            && CookieStack(req.session) == Some(a.owner)
  {
    hide World.WellFormed, StackAt, Host, IsInternalHost, ListedStacks, Cut, Join, RelayIfInternal;
    Lists(w);
    var a := ArrivalOf(w.Cfg(at), req);
    HostLands(w, a.owner);
    HasNoRelay(w.Cfg(a.owner), a.host, req.session);
  }

  lemma HasNoRelay(cfg: Config, host: string, session: Option<string>)
    ensures RelayedStack(cfg, Request(host, "", "", session)) == ""
  {
  }

  /** Whatever the pool, the stack forwarded to receives exactly the rest of it. */
  lemma FallbackLands(w: World, pool: seq<string>, session: Option<string>)
    requires w.WellFormed() && pool != [] && pool[0] in w.stacks && forall x | x in pool :: Clean(x)
    ensures var remaining := if |pool| > 1 then Join(pool[1..], COMMA) else "";
            var req := Request(Host(pool[0], w.domain), pool[0], remaining, session);
            && RelayedStack(w.Cfg(pool[0]), req) == pool[0] && RelayedRemaining(w.Cfg(pool[0]), req) == remaining
            && ArrivalOf(w.Cfg(pool[0]), req) == Local
            && PoolAt(w, pool[0], req) == pool[1..]
            && Phase(w, pool[0], req) == 0
  {
    HostLands(w, pool[0]);
    PoolShrinks(pool);
  }

  /** A local handling forwards only to the first of its pool, with the rest to go. */
  lemma FallbackJump(w: World, at: string, req: Request, res: Response)
    requires ArrivalOf(w.Cfg(at), req).Local?
    requires exists n :: res == w.Ask(at, RelayedStack(w.Cfg(at), req), RelayedRemaining(w.Cfg(at), req), n)
    requires ResolveJump(w.Cfg(at), req, res).Exec?
    ensures var pool := PoolAt(w, at, req);
            && pool != [] && pool[0] in ListedStacks(w.Raw())
            && ResolveJump(w.Cfg(at), req, res) ==
                 Exec(ForwardFallback, Host(pool[0], w.domain), pool[0],
                     if |pool| > 1 then Join(pool[1..], COMMA) else "")
  {
    hide Cut, IsInternalHost, ArrivalOf, IsRunnerHost, Host, World.Fallbacks, World.Raw, ListedStacks, Join, JoinWith,
         SessionCookie, RelayedStack, RelayedRemaining;
  }

  lemma FallbackStep(w: World, at: string, req: Request, res: Response)
    requires w.WellFormed() && at in w.stacks && ArrivalOf(w.Cfg(at), req).Local?
    requires exists n :: res == w.Ask(at, RelayedStack(w.Cfg(at), req), RelayedRemaining(w.Cfg(at), req), n)
    requires ResolveJump(w.Cfg(at), req, res).Exec?
    ensures var j := ResolveJump(w.Cfg(at), req, res);
            var pool := PoolAt(w, at, req);
            && pool != [] && j == Exec(ForwardFallback, Host(pool[0], w.domain), pool[0],
                if |pool| > 1 then Join(pool[1..], COMMA) else "")
            && pool[0] in w.stacks
            && TargetPhase(w, j.host, Request(j.host, j.stack, j.remaining, req.session)) == 0
            && TargetPool(w, j.host, Request(j.host, j.stack, j.remaining, req.session)) == |pool| - 1
  {
    hide World.WellFormed, World.Ask, World.Raw, World.Fallbacks, PoolAt, Phase, ResolveJump, RelayedStack,
         RelayedRemaining, ArrivalOf, Host, Join, StackAt, IsInternalHost, ListedStacks;
    Lists(w);
    PoolClean(w, at, req);
    FallbackJump(w, at, req, res);
    var pool := PoolAt(w, at, req);
    assert pool[0] in pool;
    FallbackLands(w, pool, req.session);
    HostLands(w, pool[0]);
  }

  lemma ReassignStep(w: World, at: string, res: Response)
    requires w.WellFormed() && at in w.stacks
    requires exists fs, fr, n :: res == w.Ask(at, fs, fr, n)
    requires ReassignJump(w.Cfg(at), res).Exec?
    ensures var j := ReassignJump(w.Cfg(at), res);
            TargetPhase(w, j.host, Request(j.host, j.stack, j.remaining, None)) == 0
  {
    hide World.WellFormed, IsInternalHost, ListedStacks, Cut, Join, JoinWith, IsRunnerHost, Decimal, CookieStack;
    Lists(w);
    var j := ReassignJump(w.Cfg(at), res);
    HostLands(w, j.stack);
  }
}
