/** What the service answers, and the session ids it issues. */
module BrokerTypes {
  import opened Text

  datatype ServiceError = NoIdleRunner | SessionNotFound | BackendFailed | ContextEnded | NoSessionId | MissingPrefix

  datatype Outcome<+T> = Ok(value: T) | Err(error: ServiceError)

  datatype ResolveResult =
    ResolveResult(sessionId: string, sessionHex: string, runnerHost: string, created: bool, reassigned: bool)

  const SEPARATOR := '_'

  function Namespaced(stackPrefix: string, sessionHex: string): string {
    stackPrefix + [SEPARATOR] + sessionHex
  }

  /** A session id comes apart into the prefix and hex it was made of exactly when the prefix has no separator. */
  lemma {:induction false} SplitNamespaced(stackPrefix: string, sessionHex: string)
    ensures Cut(Namespaced(stackPrefix, sessionHex), SEPARATOR) == Some((stackPrefix, sessionHex))
            <==> SEPARATOR !in stackPrefix
  {
    if stackPrefix != "" {
      SplitNamespaced(stackPrefix[1..], sessionHex);
      assert Namespaced(stackPrefix, sessionHex)[1..] == Namespaced(stackPrefix[1..], sessionHex);
      assert stackPrefix == [stackPrefix[0]] + stackPrefix[1..];
      if stackPrefix[0] != SEPARATOR {
        var rest := Cut(Namespaced(stackPrefix[1..], sessionHex), SEPARATOR);
        assert rest.Some? && [stackPrefix[0]] + rest.value.0 == stackPrefix ==> rest.value.0 == stackPrefix[1..] by {
          if rest.Some? && [stackPrefix[0]] + rest.value.0 == stackPrefix {
            assert ([stackPrefix[0]] + rest.value.0)[1..] == rest.value.0;
          }
        }
      }
    }
  }
}
