/** The handler that turns the service's answers into HTTP answers. */
module BrokerHandler {
  import opened Text
  import opened BrokerRepository
  import opened StackList
  import opened ResolveCore
  import opened BrokerTypes
  import opened BrokerAnswers
  import opened BrokerService
  import opened ResolveLaws
  import opened RunnerTable

  /** A request without the cookie asks for no session. */
  function SessionOf(cookie: Option<string>): string {
    if cookie.Some? then cookie.value else ""
  }

  /** After an answered request the client holds the cookie of the session answered, else what it held before. */
  lemma HeldIs(cookie: Option<string>, svc: BrokerService, t0: Table, since: nat, hex: Option<string>, story: Story,
               outcome: Outcome<ResolveResult>, setCookie: Header)
    requires svc.Visited(t0, svc.repo.History(), since, svc.repo.Contents(), SessionOf(cookie), hex, story, outcome)
    requires setCookie == if outcome.Ok? && outcome.value.created then One(SessionCookie(outcome.value.sessionId))
                          else Absent
    ensures outcome.Ok? && (outcome.value.created ==> ';' !in outcome.value.sessionId) ==>
              Held(cookie, setCookie) == Some(outcome.value.sessionId)
    ensures outcome.Err? ==> Held(cookie, setCookie) == cookie
  {
    hide SessionCookie, Visit, NewSession;
    if outcome.Ok? {
      VisitTells(svc.repo.History(), since, svc.repo.Contents(), svc.stackPrefix, SessionOf(cookie), hex,
                 svc.repo.Faults(), story, outcome);
      if outcome.value.created && ';' !in outcome.value.sessionId { CookieReads(outcome.value.sessionId, cookie); }
    }
  }

  class Handler {
    const svc: BrokerService
    const fallbackStacks: seq<string>
    const stackSelf: string

    constructor (svc: BrokerService, fallbackStacks: seq<string>, stackSelf: string)
      requires stackSelf != ""
      ensures this.svc == svc && this.fallbackStacks == fallbackStacks && this.stackSelf == stackSelf
    {
      this.svc, this.fallbackStacks, this.stackSelf := svc, fallbackStacks, stackSelf;
    }

    method SignalFallback(fallbackStack: string, fallbackRemaining: string) returns (stack: Header, remaining: Header)
      ensures (stack, remaining) == Signal(Pool(fallbackStacks, fallbackStack, fallbackRemaining))
    {
      var pool := fallbackStacks;
      if fallbackStack != "" {
        pool := Split(fallbackRemaining);
      }
      stack, remaining := Absent, Absent;
      if |pool| == 0 { return; }
      stack := One(pool[0]);
      if |pool| > 1 {
        remaining := One(Join(pool[1..], COMMA));
      }
    }

    method GetResolveSession(cookie: Option<string>, fallbackStack: string, fallbackRemaining: string)
      returns (res: Response, ghost outcome: Outcome<ResolveResult>, ghost story: Story)
      requires svc.Valid() && svc.repo.Ends()
      modifies svc, svc.repo.Footprint()
      ensures svc.Valid() && svc.log == old(svc.log) + story.news && old(svc.repo.History()) <= svc.repo.History()
      ensures svc.draws == old(svc.draws) + Draws(story)
      ensures svc.Visited(old(svc.repo.Contents()), svc.repo.History(), |old(svc.repo.History())|,
                          svc.repo.Contents(), SessionOf(cookie), svc.sessionFn(old(svc.draws)), story, outcome)
      ensures svc.repo.Alone() ==>
                Resolution(old(svc.repo.Contents()), svc.repo.Contents(), svc.stackPrefix, SessionOf(cookie),
                           svc.sessionFn(old(svc.draws)), svc.repo.Faults(), story, outcome)
      ensures story.created.Some? && outcome.Ok? && svc.repo.Ours(outcome.value.sessionId)
              && svc.Unheld(old(svc.repo.Contents()), svc.sessionFn(old(svc.draws))) ==>
                AtMost(svc.repo.Contents(), outcome.value.sessionId, VisitedId(story))
      ensures old(BrokerRepository.Clean(svc.repo.Contents())) ==> BrokerRepository.Clean(svc.repo.Contents())
      ensures res == ResolveAnswer(stackSelf, fallbackStacks, fallbackStack, fallbackRemaining, outcome)
      // header by header, and the cookie the client then holds
      ensures Says(res, stackSelf, Pool(fallbackStacks, fallbackStack, fallbackRemaining), outcome)
      ensures outcome.Ok? && (outcome.value.created ==> ';' !in outcome.value.sessionId) ==>
                Held(cookie, res.setCookie) == Some(outcome.value.sessionId)
      ensures outcome.Err? ==> Held(cookie, res.setCookie) == cookie
    {
      hide BrokerService.Visited, Resolution, BrokerRepository.Clean, AtMost, VisitedId, Visit, Held, Says,
           SessionCookie;
      hide Repository.Contents, Repository.Alone, Repository.Valid, Repository.History, Repository.Faults,
           Repository.Ends, Repository.Ours;
      ghost var t0, n, hex := svc.repo.Contents(), |svc.repo.History()|, svc.sessionFn(svc.draws);
      var result;
      result, story := svc.ResolveSession(SessionOf(cookie));
      outcome := result;
      AnswerSays(stackSelf, fallbackStacks, fallbackStack, fallbackRemaining, outcome);
      HeldIs(cookie, svc, t0, n, hex, story, outcome,
             ResolveAnswer(stackSelf, fallbackStacks, fallbackStack, fallbackRemaining, outcome).setCookie);
      res := Response(OK, Absent, Absent, Absent, Absent, Absent, Absent, Absent);
      if result.Err? {
        if result.error == NoIdleRunner {
          var stack, remaining := SignalFallback(fallbackStack, fallbackRemaining);
          return res.(status := UNAVAILABLE, fallbackStack := stack, fallbackRemaining := remaining), outcome, story;
        }
        return res.(status := INTERNAL_ERROR), outcome, story;
      }
      var r := result.value;
      if r.created {
        res := res.(setCookie := One(SessionCookie(r.sessionId)));
      }
      if r.reassigned {
        res := res.(reassigned := One(REASSIGNED));
      }
      res := res.(sessionHex := One(r.sessionHex), stackName := One(stackSelf), runnerHost := One(r.runnerHost));
    }
  }
}
