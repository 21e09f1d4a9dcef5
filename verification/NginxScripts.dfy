/** resolve.lua and reassign.lua: what a request arriving at one stack's nginx turns into. */
module NginxScripts {
  import opened Text
  import opened ResolveCore

  /** A request as nginx receives it; absent headers are empty strings. */
  datatype Request = Request(host: string, fallbackStack: string, fallbackRemaining: string, session: Option<string>)

  datatype Location = ForwardOwner | ForwardFallback | ForwardReassignedFallback

  /** Where the script leaves the request: an exit status, a jump to a forwarding location, or the runner. */
  datatype Jump =
    | Stop(status: int, reason: Reason)
    | Exec(location: Location, host: string, stack: string, remaining: string)
    | Proxy(action: Action)

  function RelayedStack(cfg: Config, req: Request): string {
    RelayIfInternal(IsInternalHost(cfg, req.host), req.fallbackStack)
  }

  function RelayedRemaining(cfg: Config, req: Request): string {
    RelayIfInternal(IsInternalHost(cfg, req.host), req.fallbackRemaining)
  }

  function ArrivalOf(cfg: Config, req: Request): Arrival {
    DecideArrival(cfg, req.session, RelayedStack(cfg, req))
  }

  function AfterBroker(cfg: Config, res: Response, forward: Location): Jump {
    match ValidateResolveResponse(res)
    case Some(invalid) =>
      if invalid.Exit? then Stop(invalid.status, invalid.reason) else Stop(res.status, RepeatedHeader)
    case None =>
      match Decide(cfg, res)
      case Exit(status, reason) => Stop(status, reason)
      case Forward(host, stack, remaining) => Exec(forward, host, stack, remaining)
      case Serve(u, c, r, h, n) => Proxy(Serve(u, c, r, h, n))
  }

  /** resolve.lua; `res` is the broker's answer, asked for on a local arrival only. */
  function ResolveJump(cfg: Config, req: Request, res: Response): Jump {
    match ArrivalOf(cfg, req)
    case Refuse(status, reason) => Stop(status, reason)
    case ToOwner(host, owner) => Exec(ForwardOwner, host, owner, FallbackRemaining(cfg, owner))
    case Local => AfterBroker(cfg, res, ForwardFallback)
  }

  /** reassign.lua; a served answer must bring a session cookie. */
  function ReassignJump(cfg: Config, res: Response): Jump {
    match AfterBroker(cfg, res, ForwardReassignedFallback)
    case Proxy(action) =>
      if action.Serve? && action.setCookie.None? then Stop(INTERNAL_ERROR, NoSessionCookie) else Proxy(action)
    case jump => jump
  }

  /** The broker's answer leads to a runner. */
  predicate LeadsToRunner(res: Response) {
    res.status == OK && IsRunnerHost(res.runnerHost)
  }

  /** The broker's answer leads to another stack: no idle runner, no repeated header, and a known stack named. */
  predicate LeadsToStack(cfg: Config, res: Response) {
    && res.status == UNAVAILABLE && res.fallbackStack.One? && !res.fallbackRemaining.Many?
    && res.fallbackStack.value != "" && res.fallbackStack.value in cfg.ordered
  }

  /** The request goes to the broker's host at the API port, each header as the broker sent the one of that name. */
  ghost predicate Serves(cfg: Config, res: Response, jump: Jump) {
    && jump.Proxy? && jump.action.Serve? && LeadsToRunner(res)
    && RunnerAt(jump.action.runnerUrl) == Some((res.runnerHost.value, cfg.apiPort))
    && (jump.action.setCookie == None <==> res.setCookie == Absent)
    && (res.setCookie.One? ==> jump.action.setCookie == Some(res.setCookie.value))
    && jump.action.reassigned == res.reassigned && jump.action.sessionHex == res.sessionHex
    && jump.action.stackName == res.stackName
  }

  /** The request goes to the stack named, with the rest of the candidates as the broker sent it. */
  ghost predicate PassesOn(cfg: Config, res: Response, jump: Jump, location: Location) {
    && jump.Exec? && jump.location == location && LeadsToStack(cfg, res) && jump.stack == res.fallbackStack.value
    && jump.host == res.fallbackStack.value + "." + cfg.domain
    && jump.remaining == if res.fallbackRemaining == Absent then "" else res.fallbackRemaining.value
  }

  /** Neither: the broker's own status, or 500 for an answer that names no usable host. */
  ghost predicate LeadsNowhere(res: Response, jump: Jump) {
    jump.Stop? && jump.status == if res.status == OK then INTERNAL_ERROR else res.status
  }

  lemma AfterBrokerGoes(cfg: Config, res: Response, location: Location)
    ensures var jump := AfterBroker(cfg, res, location);
            if LeadsToRunner(res) then Serves(cfg, res, jump)
            else if LeadsToStack(cfg, res) then PassesOn(cfg, res, jump, location)
            else LeadsNowhere(res, jump) && jump.reason != NoSessionCookie
  {
    hide RunnerAt, IsRunnerHost, Decimal;
    if LeadsToRunner(res) {
      assert res.runnerHost.One? by { HostIsOne(res.runnerHost); }
      RunnerReached(res.runnerHost.value, cfg.apiPort);
    }
  }

  lemma HostIsOne(h: Header)
    ensures IsRunnerHost(h) ==> h.One?
  {
  }

  /** Where resolve.lua leaves a request: exactly one of proxied, passed on, or ended. */
  lemma ResolveGoes(cfg: Config, req: Request, res: Response)
    ensures var jump := ResolveJump(cfg, req, res);
            if ArrivalOf(cfg, req).Local? then
              if LeadsToRunner(res) then Serves(cfg, res, jump)
              else if LeadsToStack(cfg, res) then PassesOn(cfg, res, jump, ForwardFallback)
              else LeadsNowhere(res, jump)
            else !jump.Proxy? && (jump.Exec? ==> jump.location == ForwardOwner)
    ensures ResolveJump(cfg, req, res).Proxy? <==> ArrivalOf(cfg, req).Local? && LeadsToRunner(res)
  {
    hide AfterBroker, LeadsToRunner, LeadsToStack, ArrivalOf, RunnerAt;
    AfterBrokerGoes(cfg, res, ForwardFallback);
  }

  /** Where reassign.lua leaves one: as resolve.lua, but a runner without a session cookie is an error. */
  lemma ReassignGoes(cfg: Config, res: Response)
    ensures var jump := ReassignJump(cfg, res);
            && (if LeadsToRunner(res) && res.setCookie != Absent then Serves(cfg, res, jump)
                else if LeadsToRunner(res) then jump == Stop(INTERNAL_ERROR, NoSessionCookie)
                else if LeadsToStack(cfg, res) then PassesOn(cfg, res, jump, ForwardReassignedFallback)
                else LeadsNowhere(res, jump) && jump.reason != NoSessionCookie)
            && (jump.Proxy? <==> LeadsToRunner(res) && res.setCookie != Absent)
            && (jump == Stop(INTERNAL_ERROR, NoSessionCookie) <==> LeadsToRunner(res) && res.setCookie == Absent)
  {
    hide AfterBroker, LeadsToRunner, LeadsToStack, RunnerAt;
    AfterBrokerGoes(cfg, res, ForwardReassignedFallback);
  }

  /** The per-request nginx variables the scripts assign. */
  class Ngx {
    const request: Request
    const isShellCreation: bool
    var reqFallbackStack: string
    var reqFallbackRemaining: string
    var forwardHost: string
    var fwdFallbackStack: string
    var fwdFallbackRemaining: string
    var runnerUrl: string
    var resolveSetCookie: string
    var expireShellCookie: bool
    var sessionReassigned: Header
    var sessionHex: Header
    var stackName: Header

    constructor (request: Request, isShellCreation: bool)
      ensures this.request == request && this.isShellCreation == isShellCreation
      ensures Blank()
    {
      this.request, this.isShellCreation := request, isShellCreation;
      reqFallbackStack, reqFallbackRemaining := request.fallbackStack, request.fallbackRemaining;
      forwardHost, fwdFallbackStack, fwdFallbackRemaining := "", "", "";
      runnerUrl, resolveSetCookie, expireShellCookie := "", "", false;
      sessionReassigned, sessionHex, stackName := Absent, Absent, Absent;
    }

    ghost predicate Blank() reads this {
      && reqFallbackStack == request.fallbackStack && reqFallbackRemaining == request.fallbackRemaining
      && forwardHost == fwdFallbackStack == fwdFallbackRemaining == runnerUrl == resolveSetCookie == ""
      && !expireShellCookie && sessionReassigned == sessionHex == stackName == Absent
    }

    /** The variables say what the jump says. */
    ghost predicate Carries(jump: Jump) reads this {
      match jump
      case Stop(_, _) => true
      case Exec(_, host, stack, remaining) =>
        forwardHost == host && fwdFallbackStack == stack && fwdFallbackRemaining == remaining
      case Proxy(action) =>
        action.Serve? && runnerUrl == action.runnerUrl
        && resolveSetCookie == (if action.setCookie.Some? then action.setCookie.value else "")
        && sessionHex == action.sessionHex && stackName == action.stackName
    }

    /** The variables for the runner: the broker's host at the API port, and the broker's headers. */
    ghost predicate Delivers(cfg: Config, res: Response) reads this {
      && res.runnerHost.One? && RunnerAt(runnerUrl) == Some((res.runnerHost.value, cfg.apiPort))
      && (res.setCookie.One? ==> resolveSetCookie == res.setCookie.value)
      && (res.setCookie == Absent ==> resolveSetCookie == "")
      && sessionHex == res.sessionHex && stackName == res.stackName
    }

    lemma CarriesServed(cfg: Config, res: Response, jump: Jump)
      requires Carries(jump) && Serves(cfg, res, jump)
      ensures Delivers(cfg, res) && jump.action.reassigned == res.reassigned
    {
    }

    /** `capture` is the subrequest to the broker; it sees the request headers this script rewrites. */
    method Resolve(core: Core, capture: (string, string) -> Response) returns (jump: Jump)
      requires Blank()
      modifies this
      ensures var cfg := core.Settings();
              && reqFallbackStack == RelayedStack(cfg, request)
              && reqFallbackRemaining == RelayedRemaining(cfg, request)
              && jump == ResolveJump(cfg, request, capture(reqFallbackStack, reqFallbackRemaining))
      ensures Carries(jump) && (jump.Proxy? ==> sessionReassigned == jump.action.reassigned)
      ensures var cfg, res := core.Settings(), capture(reqFallbackStack, reqFallbackRemaining);
              && (jump.Proxy? <==> ArrivalOf(cfg, request).Local? && LeadsToRunner(res))
              && (jump.Proxy? ==> Delivers(cfg, res) && sessionReassigned == res.reassigned)
    {
      hide RunnerAt, IsRunnerHost, LeadsToRunner, LeadsToStack, LeadsNowhere, Serves, PassesOn;
      hide IsInternalHost, HostOf, Host, FallbackRemaining, DecideArrival, Decide, Folded, Decimal;
      var cfg := core.Settings();
      ResolveGoes(cfg, request, capture(RelayedStack(cfg, request), RelayedRemaining(cfg, request)));
      var fromInternal := IsInternalHost(cfg, request.host);
      var relayStack := RelayIfInternal(fromInternal, request.fallbackStack);
      var relayRemaining := RelayIfInternal(fromInternal, request.fallbackRemaining);
      reqFallbackStack := relayStack;
      reqFallbackRemaining := relayRemaining;
      var arrival := DecideArrival(cfg, request.session, relayStack);
      if arrival.Refuse? { return Stop(arrival.status, arrival.reason); }
      if arrival.ToOwner? {
        forwardHost := arrival.host;
        fwdFallbackStack := arrival.owner;
        fwdFallbackRemaining := core.FallbackRemainingExcluding(arrival.owner);
        return Exec(ForwardOwner, forwardHost, fwdFallbackStack, fwdFallbackRemaining);
      }
      var res := capture(reqFallbackStack, reqFallbackRemaining);
      var invalid := ValidateResolveResponse(res);
      if invalid.Some? { return Stop(invalid.value.status, invalid.value.reason); }
      var action := Decide(cfg, res);
      if action.Exit? { return Stop(action.status, action.reason); }
      if action.Forward? {
        forwardHost := action.host;
        fwdFallbackStack := action.stack;
        fwdFallbackRemaining := action.remaining;
        return Exec(ForwardFallback, forwardHost, fwdFallbackStack, fwdFallbackRemaining);
      }
      runnerUrl := action.runnerUrl;
      if action.setCookie.Some? { resolveSetCookie := action.setCookie.value; }
      sessionReassigned := action.reassigned;
      sessionHex := action.sessionHex;
      stackName := action.stackName;
      CarriesServed(cfg, res, Proxy(action));
      return Proxy(action);
    }

    /** Signals the reassignment; the shell cookie expires unless this very request creates a shell. */
    method MarkReassigned()
      modifies this`sessionReassigned, this`expireShellCookie
      ensures sessionReassigned == One("true") && expireShellCookie == (old(expireShellCookie) || !isShellCreation)
    {
      sessionReassigned := One("true");
      if !isShellCreation { expireShellCookie := true; }
    }

    /** Runs after the owner answered 502 or 504, in the same request. */
    method Reassign(core: Core, res: Response) returns (jump: Jump)
      requires runnerUrl == "" && resolveSetCookie == "" && sessionHex == Absent && stackName == Absent
      modifies this
      ensures jump == ReassignJump(core.Settings(), res)
      ensures Carries(jump)
      ensures !jump.Stop? ==> sessionReassigned == One("true") && (!isShellCreation ==> expireShellCookie)
      ensures jump.Proxy? <==> LeadsToRunner(res) && res.setCookie != Absent
      ensures jump == Stop(INTERNAL_ERROR, NoSessionCookie) <==> LeadsToRunner(res) && res.setCookie == Absent
      ensures jump.Proxy? ==> Delivers(core.Settings(), res)
    {
      hide RunnerAt, IsRunnerHost, LeadsToRunner, LeadsToStack, LeadsNowhere, Decide, Folded, Serves, PassesOn,
           Delivers;
      var cfg := core.Settings();
      ReassignGoes(cfg, res);
      var invalid := ValidateResolveResponse(res);
      if invalid.Some? { return Stop(invalid.value.status, invalid.value.reason); }
      var action := Decide(cfg, res);
      if action.Exit? { return Stop(action.status, action.reason); }
      if action.Forward? {
        MarkReassigned();
        forwardHost := action.host;
        fwdFallbackStack := action.stack;
        fwdFallbackRemaining := action.remaining;
        return Exec(ForwardReassignedFallback, forwardHost, fwdFallbackStack, fwdFallbackRemaining);
      }
      if action.setCookie.Some? {
        resolveSetCookie := action.setCookie.value;
      } else {
        return Stop(INTERNAL_ERROR, NoSessionCookie);
      }
      sessionHex := action.sessionHex;
      stackName := action.stackName;
      runnerUrl := action.runnerUrl;
      MarkReassigned();
      CarriesServed(cfg, res, Proxy(action));
      return Proxy(action);
    }
  }
}
