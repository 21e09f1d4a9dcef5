/** A visitor's browser: it keeps the cookie of the answer and presents it with its next request. */
module ReturnVisit {
  import opened Text
  import opened RunnerTable
  import opened RunnerHistory
  import opened BrokerRepository
  import opened ResolveCore
  import opened BrokerTypes
  import opened BrokerAnswers
  import opened BrokerService
  import opened BrokerHandler
  import opened ResolveLaws
  import N = NginxScripts

  /** A session this service issues can be read back from its cookie. */
  ghost predicate CookieSafe(svc: BrokerService) {
    ';' !in svc.stackPrefix && forall n | svc.sessionFn(n).Some? :: ';' !in svc.sessionFn(n).value
  }

  /** The answer to a client whose session that record holds: its host, the same hex, no cookie, no reassignment. */
  ghost predicate Served(second: Response, sessionHex: string, host: string) {
    && second.status == OK && second.runnerHost == One(host) && second.sessionHex == One(sessionHex)
    && second.setCookie == second.reassigned == Absent
  }

  /** A request with the cookie of a session that one record holds. */
  method AskAgain(h: Handler, held: Option<string>, ghost sessionHex: string, ghost id: string)
    returns (second: Response, ghost outcome: Outcome<ResolveResult>, ghost again: Story)
    requires h.svc.Valid() && h.svc.repo.Ends() && SEPARATOR !in h.svc.stackPrefix
    requires OnlyHolder(h.svc.repo.Contents(), Namespaced(h.svc.stackPrefix, sessionHex), id)
    requires held == Some(Namespaced(h.svc.stackPrefix, sessionHex)) && h.svc.repo.Ours(held.value)
    modifies h.svc, h.svc.repo.Footprint()
    ensures h.svc.Valid() && h.svc.log == old(h.svc.log) + again.news
    ensures old(h.svc.repo.History()) <= h.svc.repo.History() && |old(h.svc.repo.History())| < |h.svc.repo.History()|
    ensures var n := |old(h.svc.repo.History())|;
            h.svc.repo.History()[n] == ApplyAll(old(h.svc.repo.Contents()), h.svc.repo.Others()(n))
    ensures second.status == OK <==> outcome.Ok?
    ensures outcome != Err(BackendFailed)
            && (forall m: nat, op |
                  |old(h.svc.repo.History())| <= m && op in h.svc.repo.Others()(m) :: op != Remove(id)) ==>
              && Holds(old(h.svc.repo.Contents()), id, Namespaced(h.svc.stackPrefix, sessionHex))
              && again.news != [] && again.news[0].id == id
              && again.news[0].host == old(h.svc.repo.Contents())[id].host
              && (again.news[0].verdict == Healthy ==>
                    Served(second, sessionHex, old(h.svc.repo.Contents())[id].host))
  {
    hide Visit, Resolution, Namespaced, NobodyHolds, BrokerRepository.Clean, Issued, AtMost, OnlyHolder, ApplyAll,
         Holds, ResolveAnswer, Held, VisitedId;
    hide Repository.Contents, Repository.Alone, Repository.Valid, Repository.History,
         Repository.Faults, Repository.Others, Repository.Ours, Repository.Ends;
    var svc := h.svc;
    ghost var t, n, hex := svc.repo.Contents(), |svc.repo.History()|, svc.sessionFn(svc.draws);
    svc.OthersMean(held.value, n);
    assert held.value != "" by { NamespacedSome(svc.stackPrefix, sessionHex); }
    second, outcome, again := h.GetResolveSession(held, "", "");
    if outcome != Err(BackendFailed)
       && (forall m: nat, op | n <= m && op in svc.repo.Others()(m) :: op != Remove(id))
    {
      VisitAgain(t, svc.repo.Others()(n), id, svc.repo.History(), n, svc.repo.Contents(), svc.stackPrefix, sessionHex,
                 hex, svc.repo.Faults(), again, outcome);
    }
  }

  lemma NamespacedSome(stackPrefix: string, sessionHex: string)
    ensures Namespaced(stackPrefix, sessionHex) != ""
  {
  }

  /**
   Two requests of one client, whatever other brokers do: an answered first one leaves the client with the session of
   one record. As long as nobody deletes that record, the second request, without a backend error, finds it; if its
   check passes the answer is its host, under the same session hex, with no new cookie and no reassignment.
   */
  method ComeBack(h: Handler, cookie: Option<string>)
    returns (first: Response, held: Option<string>, second: Response, ghost story: Story, ghost between: Table,
             ghost n: nat, ghost again: Story, ghost result: Outcome<ResolveResult>,
             ghost outcome: Outcome<ResolveResult>)
    requires h.svc.Valid() && h.svc.repo.Ends() && SEPARATOR !in h.svc.stackPrefix && CookieSafe(h.svc)
    requires UniqueSessions(h.svc.repo.Contents()) && Issued(h.svc.repo.Contents(), h.svc.stackPrefix)
    requires h.svc.repo.Ours(SessionOf(cookie))
    requires h.svc.sessionFn(h.svc.draws).Some? ==>
               h.svc.repo.Ours(h.svc.NextSession()) && NobodyHolds(h.svc.repo.Contents(), h.svc.NextSession())
    modifies h.svc, h.svc.repo.Footprint()
    ensures h.svc.Valid() && |old(h.svc.repo.History())| <= n <= |h.svc.repo.History()|
    ensures h.svc.Visited(old(h.svc.repo.Contents()), h.svc.repo.History()[..n], |old(h.svc.repo.History())|, between,
                          SessionOf(cookie), h.svc.sessionFn(old(h.svc.draws)), story, result)
    ensures first.status == OK <==> result.Ok?
    ensures held == Held(cookie, first.setCookie) && (first.status != OK ==> held == cookie)
    ensures first.status == OK ==>
              && held.Some? && OnlyHolder(between, held.value, VisitedId(story))
              && h.svc.log == old(h.svc.log) + story.news + again.news
              && n < |h.svc.repo.History()| && h.svc.repo.History()[n] == ApplyAll(between, h.svc.repo.Others()(n))
              && first.sessionHex.One? && (second.status == OK <==> outcome.Ok?)
    ensures first.status == OK && outcome != Err(BackendFailed)
            && (forall m: nat, op | n <= m && op in h.svc.repo.Others()(m) :: op != Remove(VisitedId(story))) ==>
              && Holds(between, VisitedId(story), held.value)
              && again.news != [] && again.news[0].id == VisitedId(story)
              && again.news[0].host == between[VisitedId(story)].host
              && (again.news[0].verdict == Healthy ==>
                    Served(second, first.sessionHex.value, between[VisitedId(story)].host))
  {
    hide Visit, Resolution, Namespaced, NobodyHolds, BrokerRepository.Clean, UniqueSessions, Issued, AtMost, OnlyHolder,
         ApplyAll, Holds, VisitedId, ResolveAnswer, Signal, Held, Served, CookieSafe;
    hide Repository.Contents, Repository.Alone, Repository.Valid, Repository.History,
         Repository.Faults, Repository.Others, Repository.Ours, Repository.Ends;
    var svc := h.svc;
    ghost var t0, n0, hex := svc.repo.Contents(), |svc.repo.History()|, svc.sessionFn(svc.draws);
    svc.OthersMean(SessionOf(cookie), n0);
    first, result, story := h.GetResolveSession(cookie, "", "");
    held := Held(cookie, first.setCookie);
    second := first;
    between, n, again, outcome := svc.repo.Contents(), |svc.repo.History()|, story, result;
    ghost var h1 := svc.repo.History();
    assert h1[..n] == h1;
    if first.status != OK { return; }
    svc.FirstIs(h1, n0, between, SessionOf(cookie), hex, story, result);
    VisitNames(t0, svc.repo.Others()(n0), h1, n0, between, svc.stackPrefix, SessionOf(cookie), hex, svc.repo.Faults(),
               story, result);
    SafeCookie(svc, hex, result.value.sessionId);
    second, outcome, again := AskAgain(h, held, result.value.sessionHex, VisitedId(story));
    assert svc.repo.History()[..n] == h1;
  }

  lemma SafeCookie(svc: BrokerService, hex: Option<string>, session: string)
    requires CookieSafe(svc)
    requires exists n :: hex == svc.sessionFn(n)
    ensures hex.Some? && session == Namespaced(svc.stackPrefix, hex.value) ==> ';' !in session
  {
  }

  /**
   reassign.lua with its own stack's broker, asked without a cookie: whatever the service answers is a new session, so
   the script never misses the cookie, and an answer with a usable host is proxied to it with that session's cookie.
   */
  method ReassignHere(h: Handler, ngx: N.Ngx, core: Core, fallbackStack: string, fallbackRemaining: string)
    returns (jump: N.Jump, ghost outcome: Outcome<ResolveResult>)
    requires h.svc.Valid() && h.svc.repo.Ends()
    requires ngx.runnerUrl == "" && ngx.resolveSetCookie == "" && ngx.sessionHex == ngx.stackName == Absent
    modifies h.svc, h.svc.repo.Footprint(), ngx
    ensures jump != N.Stop(INTERNAL_ERROR, NoSessionCookie)
    ensures jump.Proxy? <==> outcome.Ok? && IsRunnerHost(One(outcome.value.runnerHost))
    ensures jump.Proxy? ==>
              && outcome.value.created && !outcome.value.reassigned && ngx.sessionReassigned == One("true")
              && RunnerAt(ngx.runnerUrl) == Some((outcome.value.runnerHost, core.apiPort))
              && ngx.sessionHex == One(outcome.value.sessionHex) && ngx.stackName == One(h.stackSelf)
              && (CookieSafe(h.svc) ==>
                    Held(None, One(ngx.resolveSetCookie)) == Some(outcome.value.sessionId)
                    && outcome.value.sessionId == Namespaced(h.svc.stackPrefix, outcome.value.sessionHex))
  {
    hide Visit, Resolution, Namespaced, NobodyHolds, BrokerRepository.Clean, AtMost, Holds, ResolveAnswer, Held,
         VisitedId, CookieSafe, IsRunnerHost, RunnerAt, N.ReassignJump, N.Ngx.Carries;
    hide Repository.Contents, Repository.Alone, Repository.Valid, Repository.History,
         Repository.Faults, Repository.Others, Repository.Ours, Repository.Ends;
    var svc := h.svc;
    ghost var n, hex := |svc.repo.History()|, svc.sessionFn(svc.draws);
    var res;
    ghost var story;
    res, outcome, story := h.GetResolveSession(None, fallbackStack, fallbackRemaining);
    if outcome.Ok? {
      VisitTells(svc.repo.History(), n, svc.repo.Contents(), svc.stackPrefix, "", hex, svc.repo.Faults(), story,
                 outcome);
      if CookieSafe(svc) { SafeCookie(svc, hex, outcome.value.sessionId); }
    }
    jump := ngx.Reassign(core, res);
  }
}
