/** What nginx decides from a request and the broker's answer. */
module ResolveCore {
  import opened Text
  import opened StackList

  const OK := 200
  const INTERNAL_ERROR := 500
  const BAD_GATEWAY := 502
  const UNAVAILABLE := 503
  const GATEWAY_TIMEOUT := 504

  /** A response header as a subrequest reports it; Many when the header came more than once. */
  datatype Header = Absent | One(value: string) | Many(values: seq<string>)

  datatype Response = Response(status: int, fallbackStack: Header, fallbackRemaining: Header, runnerHost: Header,
                               setCookie: Header, reassigned: Header, sessionHex: Header, stackName: Header)

  datatype Reason =
    | FallbackMismatch
    | UnknownOwner
    | UnknownFallback
    | NoCandidate
    | BrokerStatus
    | BadRunnerHost
    | RepeatedHeader
    | NoSessionCookie

  datatype Config = Config(own: string, domain: string, ordered: seq<string>, apiPort: nat)

  datatype Arrival = Local | Refuse(status: int, reason: Reason) | ToOwner(host: string, owner: string)

  datatype Action =
    | Exit(status: int, reason: Reason)
    | Forward(host: string, stack: string, remaining: string)
    | Serve(runnerUrl: string, setCookie: Option<string>, reassigned: Header, sessionHex: Header, stackName: Header)

  /** The stack a session id was issued by. */
  function CookieStack(sessionId: Option<string>): Option<string> {
    match sessionId
    case None => None
    case Some(id) =>
      match Cut(id, '_')
      case None => None
      case Some(parts) => if parts.0 == "" then None else Some(parts.0)
  }

  function Host(stack: string, domain: string): string {
    stack + ['.'] + domain
  }

  function HostOf(cfg: Config, stack: string): Option<string> {
    if stack in cfg.ordered then Some(Host(stack, cfg.domain)) else None
  }

  /** Only an exact `<known stack>.<internal domain>` is the internal route. */
  predicate IsInternalHost(cfg: Config, host: string) {
    cfg.domain != "" &&
    match Cut(host, '.')
    case None => false
    case Some(parts) => parts.0 in cfg.ordered && parts.1 == cfg.domain
  }

  /** The headers are trusted on the internal route only; an absent header is the empty string. */
  function RelayIfInternal(fromInternal: bool, value: string): string {
    if fromInternal then value else ""
  }

  function Others(ordered: seq<string>, own: string, stack: string): seq<string> {
    Without(Without(ordered, own), stack)
  }

  /** The candidates left when neither this stack nor `stack` may be tried; the empty string for none. */
  function FallbackRemaining(cfg: Config, stack: string): string {
    Join(Others(cfg.ordered, cfg.own, stack), COMMA)
  }

  function DecideArrival(cfg: Config, sessionId: Option<string>, fallbackStack: string): Arrival {
    if fallbackStack != "" then
      if fallbackStack == cfg.own then Local else Refuse(INTERNAL_ERROR, FallbackMismatch)
    else
      match CookieStack(sessionId)
      case None => Local
      case Some(owner) =>
        if owner == cfg.own then Local
        else
          match HostOf(cfg, owner)
          case None => Refuse(INTERNAL_ERROR, UnknownOwner)
          case Some(host) => ToOwner(host, owner)
  }

  function ValidateResolveResponse(res: Response): Option<Action> {
    if res.status != UNAVAILABLE then None
    else if res.fallbackStack.Many? || res.fallbackRemaining.Many? then Some(Exit(UNAVAILABLE, RepeatedHeader))
    else None
  }

  predicate IsAlnum(c: char) {
    'a' <= c <= 'z' || 'A' <= c <= 'Z' || '0' <= c <= '9'
  }

  predicate IsRunnerHost(h: Header) {
    h.One? && h.value != "" && forall c | c in h.value :: IsAlnum(c) || c == '.' || c == '-'
  }

  /** Letters and numbers are usable hosts, and so are two with a dot, a hyphen or nothing in between; none is empty. */
  lemma HostsCompose(a: string, b: string, n: nat)
    requires IsRunnerHost(One(a)) && IsRunnerHost(One(b))
    ensures IsRunnerHost(One(a + "." + b)) && IsRunnerHost(One(a + "-" + b)) && IsRunnerHost(One(a + b))
    ensures IsRunnerHost(One(Decimal(n))) && forall c | 'a' <= c <= 'z' || 'A' <= c <= 'Z' :: IsRunnerHost(One([c]))
    ensures forall h | IsRunnerHost(h) :: h.One? && h.value != ""
  {
  }

  function Folded(h: Header): Option<string> {
    match h
    case Absent => None
    case One(v) => Some(v)
    case Many(vs) => Some(JoinWith(vs, ", "))
  }

  function JoinWith(xs: seq<string>, sep: string): string {
    if xs == [] then ""
    else if |xs| == 1 then xs[0]
    else xs[0] + sep + JoinWith(xs[1..], sep)
  }

  function Spaced(vs: seq<string>): seq<string> {
    if vs == [] then [] else [" " + vs[0]] + Spaced(vs[1..])
  }

  lemma {:induction false} JoinSpaced(vs: seq<string>)
    requires vs != [] && forall v | v in vs :: COMMA !in v
    ensures " " + JoinWith(vs, ", ") == Join(Spaced(vs), COMMA)
    ensures Spaced(vs) != [] && forall x | x in Spaced(vs) :: COMMA !in x
  {
    assert vs[0] in vs && forall v | v in vs[1..] :: v in vs;
    if |vs| == 1 {
      assert Spaced(vs) == [" " + vs[0]];
    } else {
      hide Join, JoinWith;
      JoinSpaced(vs[1..]);
      JoinStep(vs);
    }
  }

  lemma JoinStep(vs: seq<string>)
    requires |vs| > 1 && " " + JoinWith(vs[1..], ", ") == Join(Spaced(vs[1..]), COMMA)
    ensures " " + JoinWith(vs, ", ") == Join(Spaced(vs), COMMA)
  {
    hide Join, Spaced;
    var space: string, comma: string := " ", [COMMA];
    assert ", " == comma + space;
    SpacedTwo(vs);
    Shift(space, vs[0], comma, JoinWith(vs[1..], ", "));
  }

  lemma SpacedTwo(vs: seq<string>)
    requires |vs| > 1
    ensures Join(Spaced(vs), COMMA) == " " + vs[0] + [COMMA] + Join(Spaced(vs[1..]), COMMA)
  {
    var rest := Spaced(vs[1..]);
    assert Spaced(vs) == [" " + vs[0]] + rest && Spaced(vs)[1..] == rest;
  }

  lemma Shift<T>(s: seq<T>, v: seq<T>, c: seq<T>, more: seq<T>)
    ensures s + (v + (c + s) + more) == s + v + c + (s + more)
  {
  }

  /** Repeated cookies are folded into one line from which each can be read again. */
  lemma FoldedReads(vs: seq<string>)
    requires vs != [] && forall v | v in vs :: COMMA !in v
    ensures Folded(Many(vs)).Some? && SplitOn(" " + Folded(Many(vs)).value, COMMA) == Spaced(vs)
  {
    JoinSpaced(vs);
    SplitJoin(Spaced(vs), COMMA);
  }

  function HeaderText(h: Header): string {
    if h.One? then h.value else ""
  }

  function Decide(cfg: Config, res: Response): Action {
    if res.status == UNAVAILABLE then
      var next := HeaderText(res.fallbackStack);
      if next == "" then Exit(UNAVAILABLE, NoCandidate)
      else
        match HostOf(cfg, next)
        case None => Exit(UNAVAILABLE, UnknownFallback)
        case Some(host) => Forward(host, next, HeaderText(res.fallbackRemaining))
    else if res.status != OK then Exit(res.status, BrokerStatus)
    else if !IsRunnerHost(res.runnerHost) then Exit(INTERNAL_ERROR, BadRunnerHost)
    else
      Serve("http://" + res.runnerHost.value + ":" + Decimal(cfg.apiPort), Folded(res.setCookie),
            res.reassigned, res.sessionHex, res.stackName)
  }

  /** The id starts with this stack's name and the separator. */
  predicate Claims(id: string, stack: string) {
    stack != "" && '_' !in stack && stack + "_" <= id
  }

  lemma CookieExactly(id: string, stack: string)
    ensures CookieStack(Some(id)) == Some(stack) <==> Claims(id, stack)
  {
    CutSound(id, '_');
    if Claims(id, stack) {
      assert id == stack + ['_'] + id[|stack| + 1..];
      CutFirst(stack, id[|stack| + 1..], '_');
    }
  }

  /**
   Where a request goes on arrival: a relayed fallback is handled here if it names this stack, and refused if it names
   another; without one, a cookie of another stack leads there if that stack is listed, and is refused if not.
   */
  lemma ArrivalExactly(cfg: Config, id: string, fallbackStack: string)
    requires cfg.own != ""
    ensures var arrival := DecideArrival(cfg, Some(id), fallbackStack);
            var foreign := exists s :: Claims(id, s) && s != cfg.own;
            var known := exists s :: Claims(id, s) && s != cfg.own && s in cfg.ordered;
            && (arrival.Local? <==> fallbackStack == cfg.own || (fallbackStack == "" && !foreign))
            && (arrival.ToOwner? <==> fallbackStack == "" && known)
            && (arrival.ToOwner? ==>
                  && Claims(id, arrival.owner) && arrival.owner != cfg.own
                  && arrival.host == arrival.owner + "." + cfg.domain)
            && (arrival.Refuse? ==>
                  arrival.status == INTERNAL_ERROR
                  && arrival.reason == if fallbackStack == "" then UnknownOwner else FallbackMismatch)
    ensures DecideArrival(cfg, None, "") == Local
  {
    forall s ensures CookieStack(Some(id)) == Some(s) <==> Claims(id, s) {
      CookieExactly(id, s);
    }
    hide CookieStack, Claims;
    var owner := CookieStack(Some(id));
    if owner.Some? { assert Claims(id, owner.value); }
  }

  const SCHEME := "http://"

  /** Host and port of an address that is just "http://host:port"; None for any other. */
  function RunnerAt(url: string): Option<(string, nat)> {
    if !(SCHEME <= url) then None
    else
      match Cut(url[|SCHEME|..], ':')
      case None => None
      case Some(parts) =>
        var port := ParseDigits(parts.1);
        if parts.0 == "" || parts.1 == "" || port.None? || exists c :: c in parts.0 && c in "/@?#" then None
        else Some((parts.0, port.value))
  }

  /** A valid host and a port make the address of that host and port. */
  lemma RunnerReached(host: string, port: nat)
    requires IsRunnerHost(One(host))
    ensures RunnerAt(SCHEME + host + ":" + Decimal(port)) == Some((host, port))
  {
    var rest := host + [':'] + Decimal(port);
    assert SCHEME + host + ":" + Decimal(port) == SCHEME + rest;
    CutFirst(host, Decimal(port), ':');
    ParseDecimal(port);
  }

  /** A host is internal exactly when it is a listed name without a dot, a dot and the domain. */
  lemma InternalExactly(cfg: Config, host: string)
    ensures IsInternalHost(cfg, host) <==>
            cfg.domain != "" && exists s :: s in cfg.ordered && '.' !in s && host == s + "." + cfg.domain
  {
    CutSound(host, '.');
    if s :| s in cfg.ordered && '.' !in s && host == s + "." + cfg.domain {
      CutFirst(s, cfg.domain, '.');
    }
    if IsInternalHost(cfg, host) {
      var parts := Cut(host, '.').value;
      assert host == parts.0 + "." + cfg.domain;
    }
  }

  function NonEmpty(xs: seq<string>): seq<string> {
    if xs == [] then [] else (if xs[0] == "" then [] else [xs[0]]) + NonEmpty(xs[1..])
  }

  /** The stack names nginx reads from the list: the non-empty runs between commas, not trimmed. */
  function ListedStacks(raw: string): seq<string> {
    NonEmpty(SplitOn(raw, COMMA))
  }

  lemma {:induction false} NonEmptyKeeps(xs: seq<string>)
    requires "" !in xs
    ensures NonEmpty(xs) == xs
  {
    if xs != [] {
      assert xs[0] in xs;
      NonEmptyKeeps(xs[1..]);
      assert xs == [xs[0]] + xs[1..];
    }
  }

  /** nginx and the broker read the same stacks from a joined list of clean names. */
  lemma ListsAgree(xs: seq<string>)
    requires xs != [] && forall x | x in xs :: Clean(x)
    ensures ListedStacks(Join(xs, COMMA)) == Pieces(Join(xs, COMMA)) == xs
  {
    SplitUndoesJoin(xs);
    SplitJoin(xs, COMMA);
    NonEmptyKeeps(xs);
  }

  /** The list is read run by run: nothing of an empty run, the name of any other, and both sides of a comma. */
  lemma ListedRuns(a: string, b: string)
    ensures ListedStacks(a + [COMMA] + b) == ListedStacks(a) + ListedStacks(b)
    ensures COMMA !in a ==> ListedStacks(a) == if a == "" then [] else [a]
  {
    SplitBetween(a, b, COMMA);
    NonEmptyAppend(SplitOn(a, COMMA), SplitOn(b, COMMA));
    if COMMA !in a {
      SplitPiece(a, COMMA);
      assert [a][1..] == [];
    }
  }

  lemma {:induction false} NonEmptyAppend(xs: seq<string>, ys: seq<string>)
    ensures NonEmpty(xs + ys) == NonEmpty(xs) + NonEmpty(ys)
  {
    if xs == [] {
      assert xs + ys == ys;
    } else {
      assert (xs + ys)[1..] == xs[1..] + ys;
      NonEmptyAppend(xs[1..], ys);
    }
  }

  datatype Cloud = AWS | GoogleCloud

  /** The module state behind resolve_core: set once by Configure, read by everything else. */
  class Core {
    var ownStack: string
    var domain: string
    var ordered: seq<string>
    var allowed: set<string>
    var apiPort: nat
    var appPort: nat
    var cloud: Cloud

    constructor ()
      ensures ownStack == "" && domain == "" && ordered == [] && allowed == {}
    {
      ownStack, domain, ordered, allowed := "", "", [], {};
      apiPort, appPort, cloud := 0, 0, AWS;
    }

    ghost predicate Valid() reads this {
      && allowed == set s | s in ordered
      && (domain != "" ==> ownStack in ordered)
    }

    function Settings(): Config reads this {
      Config(ownStack, domain, ordered, apiPort)
    }

    predicate ValidPort(port: Option<int>) {
      port.Some? && 0 < port.value <= 65535
    }

    /** The names in order, and the set of them. */
    method ReadNames(stackNames: string) returns (names: set<string>, list: seq<string>)
      ensures list == ListedStacks(stackNames) && names == set s | s in list
    {
      names, list := {}, [];
      var runs := SplitOn(stackNames, COMMA);
      for i := 0 to |runs|
        invariant list == NonEmpty(runs[..i]) && names == set s | s in list
      {
        assert runs[..i + 1] == runs[..i] + [runs[i]];
        NonEmptyAppend(runs[..i], [runs[i]]);
        if runs[i] != "" {
          names := names + {runs[i]};
          list := list + [runs[i]];
        }
      }
      assert runs[..|runs|] == runs;
    }

    /** Fails on anything missing or out of range, and when the stack is not in its own list. */
    method Configure(stack: string, domainName: string, stackNames: string, api: Option<int>, app: Option<int>,
                     cloudName: Option<Cloud>) returns (ok: bool)
      requires Valid()
      modifies this
      ensures Valid()
      ensures ok <==> && stack != "" && domainName != "" && stackNames != "" && cloudName.Some?
                      && api.Some? && 1 <= api.value <= 65535 && app.Some? && 1 <= app.value <= 65535
                      && stack in ListedStacks(stackNames)
      ensures ok ==> && Settings() == Config(stack, domainName, ListedStacks(stackNames), api.value)
                     && appPort == app.value && cloud == cloudName.value
      ensures !ok ==>
                ownStack == old(ownStack) && domain == old(domain) && ordered == old(ordered) && cloud == old(cloud)
    {
      if stack == "" || domainName == "" { return false; }
      if stackNames == "" { return false; }
      if cloudName.None? { return false; }
      if !ValidPort(api) { return false; }
      apiPort := api.value;
      if !ValidPort(app) { return false; }
      appPort := app.value;
      var names, list := ReadNames(stackNames);
      assert stack in list <==> stack in names;
      if names == {} { return false; }
      if stack !in names { return false; }
      ownStack, domain, allowed, ordered, cloud := stack, domainName, names, list, cloudName.value;
      return true;
    }

    method FallbackRemainingExcluding(stack: string) returns (remaining: string)
      ensures remaining == FallbackRemaining(Settings(), stack)
    {
      var names: seq<string> := [];
      for i := 0 to |ordered|
        invariant names == Others(ordered[..i], ownStack, stack)
      {
        var candidate := ordered[i];
        assert ordered[..i + 1] == ordered[..i] + [candidate];
        WithoutAppend(ordered[..i], [candidate], ownStack);
        WithoutAppend(Without(ordered[..i], ownStack), Without([candidate], ownStack), stack);
        if candidate != ownStack && candidate != stack {
          names := names + [candidate];
        }
      }
      assert ordered[..|ordered|] == ordered;
      if |names| == 0 { return ""; }
      return Join(names, COMMA);
    }
  }
}
