/** The broker's HTTP answers as far as routing depends on them: status and headers. */
module BrokerAnswers {
  import opened Text
  import opened Ids
  import opened StackList
  import opened ResolveCore
  import opened BrokerTypes

  const REASSIGNED := "true"

  function SessionCookie(sessionId: string): string {
    "session_id=" + sessionId + "; Path=/" + "; HttpOnly" + "; Secure" + "; SameSite=Strict"
  }

  /** The candidates a no-idle answer offers: the stack's own rotation, or what a forwarded request still carries. */
  function Pool(fallbacks: seq<string>, fallbackStack: string, fallbackRemaining: string): seq<string> {
    if fallbackStack != "" then Pieces(fallbackRemaining) else fallbacks
  }

  function Signal(pool: seq<string>): (Header, Header) {
    if pool == [] then (Absent, Absent)
    else (One(pool[0]), if |pool| > 1 then One(Join(pool[1..], COMMA)) else Absent)
  }

  /** GetResolveSession's answer to what the service returned. */
  function ResolveAnswer(self: string, fallbacks: seq<string>, fallbackStack: string, fallbackRemaining: string,
                         outcome: Outcome<ResolveResult>): Response
  {
    match outcome
    case Ok(r) =>
      Response(OK, Absent, Absent, One(r.runnerHost), if r.created then One(SessionCookie(r.sessionId)) else Absent,
               if r.reassigned then One(REASSIGNED) else Absent, One(r.sessionHex), One(self))
    case Err(NoIdleRunner) =>
      var (stack, remaining) := Signal(Pool(fallbacks, fallbackStack, fallbackRemaining));
      Response(UNAVAILABLE, stack, remaining, Absent, Absent, Absent, Absent, Absent)
    case Err(_) => Response(INTERNAL_ERROR, Absent, Absent, Absent, Absent, Absent, Absent, Absent)
  }

  // ---- what the client makes of it ----

  const COOKIE := "session_id"

  /** The cookie a client holds after a response: name and value up to the first ';' of its Set-Cookie, if any. */
  function Held(before: Option<string>, setCookie: Header): Option<string> {
    if !setCookie.One? then before
    else
      var pair := match Cut(setCookie.value, ';') case Some(parts) => parts.0 case None => setCookie.value;
      match Cut(pair, '=')
      case Some(parts) => if parts.0 == COOKIE then Some(parts.1) else before
      case None => before
  }

  /** The answer header by header: the status says which outcome it was, and each header what it is named after. */
  ghost predicate Says(res: Response, self: string, pool: seq<string>, outcome: Outcome<ResolveResult>) {
    && (res.status == OK <==> outcome.Ok?)
    && (res.status == UNAVAILABLE <==> outcome == Err(NoIdleRunner))
    && (res.status !in {OK, UNAVAILABLE} ==> res.status == INTERNAL_ERROR)
    && (if outcome.Ok? then
          && res.runnerHost == One(outcome.value.runnerHost) && res.sessionHex == One(outcome.value.sessionHex)
          && res.stackName == One(self)
          && (if outcome.value.created then res.setCookie.One? else res.setCookie == Absent)
          && (res.reassigned == One("true") <==> outcome.value.reassigned)
          && (res.reassigned == Absent <==> !outcome.value.reassigned)
        else res.runnerHost == res.sessionHex == res.stackName == res.setCookie == res.reassigned == Absent)
    && (res.fallbackStack != Absent <==> outcome == Err(NoIdleRunner) && pool != [])
    && (res.fallbackRemaining != Absent <==> outcome == Err(NoIdleRunner) && |pool| > 1)
    && (res.fallbackStack != Absent ==> res.fallbackStack == One(pool[0]))
    && (res.fallbackRemaining != Absent ==>
          res.fallbackRemaining.One? && SplitOn(res.fallbackRemaining.value, COMMA) == SplitAll(pool[1..]))
  }

  /** The pieces between the commas of some texts, in order. */
  function SplitAll(xs: seq<string>): seq<string> {
    if xs == [] then [] else SplitOn(xs[0], COMMA) + SplitAll(xs[1..])
  }

  lemma {:induction false} SplitJoined(xs: seq<string>)
    requires xs != []
    ensures SplitOn(Join(xs, COMMA), COMMA) == SplitAll(xs)
  {
    if |xs| == 1 {
      assert SplitAll(xs[1..]) == [];
    } else {
      SplitJoined(xs[1..]);
      SplitBetween(xs[0], Join(xs[1..], COMMA), COMMA);
    }
  }

  lemma AnswerSays(self: string, fallbacks: seq<string>, fallbackStack: string, fallbackRemaining: string,
                   outcome: Outcome<ResolveResult>)
    ensures Says(ResolveAnswer(self, fallbacks, fallbackStack, fallbackRemaining, outcome), self,
                 Pool(fallbacks, fallbackStack, fallbackRemaining), outcome)
  {
    hide Pool, SessionCookie, Join, SplitOn;
    var pool := Pool(fallbacks, fallbackStack, fallbackRemaining);
    if |pool| > 1 { SplitJoined(pool[1..]); }
  }

  /**
   The pieces of the cookie: name and value, and that it is sent to every path of the site, not shown to scripts, over
   TLS only, and from no other site.
   */
  lemma CookieAttributes(sessionId: string)
    requires ';' !in sessionId
    ensures SplitOn(SessionCookie(sessionId), ';')
        == [COOKIE + ['='] + sessionId, " Path=/", " HttpOnly", " Secure", " SameSite=Strict"]
  {
    hide SplitOn;
    var pair := COOKIE + ['='] + sessionId;
    assert COOKIE + ['='] == "session_id=";
    assert "; Path=/" == [';'] + " Path=/" && "; HttpOnly" == [';'] + " HttpOnly";
    assert "; Secure" == [';'] + " Secure" && "; SameSite=Strict" == [';'] + " SameSite=Strict";
    var c1 := pair + "; Path=/";
    var c2 := c1 + "; HttpOnly";
    var c3 := c2 + "; Secure";
    SplitPiece(pair, ';');
    MorePiece(pair, " Path=/", ';');
    MorePiece(c1, " HttpOnly", ';');
    MorePiece(c2, " Secure", ';');
    MorePiece(c3, " SameSite=Strict", ';');
  }

  lemma MorePiece(x: string, y: string, sep: char)
    requires sep !in y
    ensures SplitOn(x + ([sep] + y), sep) == SplitOn(x, sep) + [y]
  {
    hide SplitOn;
    assert x + ([sep] + y) == x + [sep] + y;
    SplitBetween(x, y, sep);
    SplitPiece(y, sep);
  }

  /** The cookie of an answer reads back as the session id. */
  lemma CookieReads(sessionId: string, before: Option<string>)
    requires ';' !in sessionId
    ensures Held(before, One(SessionCookie(sessionId))) == Some(sessionId)
  {
    hide Cut, SplitOn, SessionCookie;
    var pair := COOKIE + ['='] + sessionId;
    CookieAttributes(sessionId);
    FirstPiece(SessionCookie(sessionId), ';');
    assert '=' !in COOKIE;
    CutFirst(COOKIE, sessionId, '=');
  }

  /** The first label of an app host when it is a session hex. */
  function ExtractSessionHex(host: string): Option<string> {
    match Cut(host, '.')
    case None => None
    case Some(parts) => if ValidRunnerId(parts.0) then Some(parts.0) else None
  }

  /** An app host names its session exactly when the label is one. */
  lemma AppHostNamesSession(hex: string, rest: string)
    requires '.' !in hex
    ensures ExtractSessionHex(hex + ['.'] + rest) == (if ValidRunnerId(hex) then Some(hex) else None)
  {
    CutFirst(hex, rest, '.');
  }
}
