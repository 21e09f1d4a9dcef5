/** What a call does to the shared table, request by request, between what the others get done. */
module Traces {
  import opened Text
  import opened RunnerTable
  import opened RunnerHistory

  /** The table a request leaves: its own operation on the table it found, if it had one that took effect. */
  function Did(found: Table, op: Option<Op>): Table {
    match op
    case None => found
    case Some(op) => Apply(found, op)
  }

  /** An assignment among the effects was of an idle runner. */
  predicate Effective(found: Table, op: Option<Op>) {
    op.Some? && op.value.Assign? ==> IsIdle(found, op.value.id)
  }

  /**
   From table `t` the requests from `since` on found the tables of the history and did `did`, each after the others'
   operations, and left `after`.
   */
  ghost predicate Trace(history: seq<Table>, others: nat -> seq<Op>, since: nat, t: Table, did: seq<Option<Op>>,
                        after: Table)
    decreases |did|
  {
    if did == [] then |history| == since && after == t
    else
      && since < |history| && history[since] == ApplyAll(t, others(since)) && Effective(history[since], did[0])
      && Trace(history, others, since + 1, Did(history[since], did[0]), did[1..], after)
  }

  /** A trace of one session: it assigns when it holds nothing, and removes only the record it holds. */
  ghost predicate OneByOne(did: seq<Option<Op>>, session: string, holds: Option<string>, kept: Option<string>)
    decreases |did|
  {
    if did == [] then holds == kept
    else
      match did[0]
      case None => OneByOne(did[1..], session, holds, kept)
      case Some(Assign(id, s)) => holds.None? && s == session && OneByOne(did[1..], session, Some(id), kept)
      case Some(Remove(id)) => holds == Some(id) && OneByOne(did[1..], session, None, kept)
      case Some(Put(_, _)) => false
  }

  lemma {:induction false} TraceOn(h: seq<Table>, history: seq<Table>, others: nat -> seq<Op>, since: nat, t: Table,
                                   did: seq<Option<Op>>, between: Table, more: seq<Option<Op>>, after: Table)
    requires h <= history
    requires Trace(h, others, since, t, did, between) && Trace(history, others, |h|, between, more, after)
    ensures Trace(history, others, since, t, did + more, after)
    decreases |did|
  {
    if did == [] {
      assert did + more == more;
    } else {
      assert (did + more)[0] == did[0] && (did + more)[1..] == did[1..] + more;
      TraceOn(h, history, others, since + 1, Did(h[since], did[0]), did[1..], between, more, after);
    }
  }

  lemma {:induction false} OneByOneOn(did: seq<Option<Op>>, more: seq<Option<Op>>, session: string,
                                      holds: Option<string>, between: Option<string>, kept: Option<string>)
    requires OneByOne(did, session, holds, between) && OneByOne(more, session, between, kept)
    ensures OneByOne(did + more, session, holds, kept)
    decreases |did|
  {
    if did == [] {
      assert did + more == more;
    } else {
      assert (did + more)[0] == did[0] && (did + more)[1..] == did[1..] + more;
      var holds' := match did[0] case Some(Assign(id, _)) => Some(id) case Some(_) => None case None => holds;
      OneByOneOn(did[1..], more, session, holds', between, kept);
    }
  }

  /** Requests that found the table as the one before left it, and at the end one that may have had an effect. */
  function Last(n: nat, op: Option<Op>): (did: seq<Option<Op>>)
    ensures |did| == n + 1
  {
    if n == 0 then [op] else [None] + Last(n - 1, op)
  }

  lemma {:induction false} FollowsTrace(history: seq<Table>, others: nat -> seq<Op>, since: nat, t: Table,
                                        op: Option<Op>)
    requires Follows(history, others, since, t) && since < |history| && Effective(history[|history| - 1], op)
    ensures Trace(history, others, since, t, Last(|history| - 1 - since, op), Did(history[|history| - 1], op))
    decreases |history| - since
  {
    var did := Last(|history| - 1 - since, op);
    assert Finds(history, others, since, t, since);
    if since < |history| - 1 {
      var next, found := since + 1, history[since];
      forall m: nat | next <= m < |history| ensures Finds(history, others, next, found, m) {
        assert Finds(history, others, since, t, m);
      }
      FollowsTrace(history, others, since + 1, history[since], op);
      assert did[1..] == Last(|history| - 2 - since, op);
    } else {
      assert did[1..] == [];
    }
  }

  lemma {:induction false} LastOneByOne(n: nat, op: Option<Op>, session: string, holds: Option<string>,
                                        kept: Option<string>)
    requires OneByOne([op], session, holds, kept)
    ensures OneByOne(Last(n, op), session, holds, kept)
  {
    if n > 0 {
      assert Last(n, op)[1..] == Last(n - 1, op);
      LastOneByOne(n - 1, op, session, holds, kept);
    }
  }
}
