/** What happens to the table while one broker's requests land between the operations of the others. */
module RunnerHistory {
  import opened Text
  import opened RunnerTable

  function ApplyAll(t: Table, ops: seq<Op>): Table
    decreases |ops|
  {
    if ops == [] then t else ApplyAll(Apply(t, ops[0]), ops[1..])
  }

  lemma {:induction false} ApplyAllAppend(t: Table, a: seq<Op>, b: seq<Op>)
    ensures ApplyAll(t, a + b) == ApplyAll(ApplyAll(t, a), b)
    decreases |a|
  {
    if a == [] {
      assert a + b == b;
    } else {
      assert (a + b)[0] == a[0] && (a + b)[1..] == a[1..] + b;
      ApplyAllAppend(Apply(t, a[0]), a[1..], b);
    }
  }

  /** Request `m` found the table the request before it left, changed only by the others. */
  ghost predicate Finds(history: seq<Table>, others: nat -> seq<Op>, since: nat, t: Table, m: nat)
    requires since <= m < |history|
  {
    history[m] == ApplyAll(if m == since then t else history[m - 1], others(m))
  }

  ghost predicate Follows(history: seq<Table>, others: nat -> seq<Op>, since: nat, t: Table) {
    forall m: nat | since <= m < |history| :: Finds(history, others, since, t, m)
  }

  lemma FollowsOn(history: seq<Table>, others: nat -> seq<Op>, since: nat, t: Table, next: Table)
    requires Follows(history, others, since, t) && since <= |history|
    requires next == ApplyAll(if |history| == since then t else history[|history| - 1], others(|history|))
    ensures Follows(history + [next], others, since, t)
  {
    var h := history + [next];
    forall m: nat | since <= m < |h| ensures Finds(h, others, since, t, m) {
      if m < |history| { assert Finds(history, others, since, t, m); }
    }
  }

  /** What the others got done before the requests `from` up to, not including, `upTo`. */
  function Landed(others: nat -> seq<Op>, from: nat, upTo: nat): seq<Op>
    decreases upTo
  {
    if upTo <= from then [] else Landed(others, from, upTo - 1) + others(upTo - 1)
  }

  lemma {:induction false} LandedBetween(history: seq<Table>, others: nat -> seq<Op>, since: nat, t: Table, k: nat,
                                         n: nat)
    requires Follows(history, others, since, t) && since <= k <= n < |history|
    ensures history[n] == ApplyAll(history[k], Landed(others, k + 1, n + 1))
    decreases n
  {
    if k < n {
      LandedBetween(history, others, since, t, k, n - 1);
      assert Finds(history, others, since, t, n);
      ApplyAllAppend(history[k], Landed(others, k + 1, n), others(n));
    }
  }

  /** Some operation deletes the record of `id`. */
  ghost predicate Removed(t: Table, ops: seq<Op>, id: string)
    decreases |ops|
  {
    ops != [] && ((ops[0] == Remove(id) && id in t) || Removed(Apply(t, ops[0]), ops[1..], id))
  }

  /** The host of the last operation that registers `id`. */
  ghost function Registered(t: Table, ops: seq<Op>, id: string): Option<string>
    decreases |ops|
  {
    if ops == [] then None
    else
      match Registered(Apply(t, ops[0]), ops[1..], id)
      case Some(host) => Some(host)
      case None =>
        if ops[0].Put? && ops[0].id == id && Registrable(t, id, ops[0].host) then Some(ops[0].host) else None
  }

  lemma {:induction false} HostAfter(t: Table, ops: seq<Op>, id: string)
    requires id in ApplyAll(t, ops) && (id in t ==> !t[id].Malformed?)
    ensures !ApplyAll(t, ops)[id].Malformed?
    ensures match Registered(t, ops, id)
            case Some(host) => ApplyAll(t, ops)[id].host == host && (id in t ==> Removed(t, ops, id))
            case None => id in t && ApplyAll(t, ops)[id].host == t[id].host && !Removed(t, ops, id)
    decreases |ops|
  {
    if ops != [] { HostAfter(Apply(t, ops[0]), ops[1..], id); }
  }

  /** A present record still has its host exactly when nobody deleted it, or the last registration has that host. */
  lemma HostStands(t: Table, ops: seq<Op>, id: string)
    requires id in t && !t[id].Malformed? && id in ApplyAll(t, ops)
    ensures !ApplyAll(t, ops)[id].Malformed?
    ensures ApplyAll(t, ops)[id].host == t[id].host
            <==> !Removed(t, ops, id) || Registered(t, ops, id) == Some(t[id].host)
  {
    HostAfter(t, ops, id);
  }

  /** A record keeps its session, and the session stays its own, while nobody deletes it or uses that session. */
  lemma {:induction false} OpsKeepHolder(t: Table, ops: seq<Op>, id: string, session: string)
    requires Holds(t, id, session)
    requires forall op | op in ops :: op != Remove(id) && !(op.Assign? && op.session == session)
    ensures id in ApplyAll(t, ops) && ApplyAll(t, ops)[id] == t[id]
    ensures forall x | Holds(ApplyAll(t, ops), x, session) :: Holds(t, x, session)
    decreases |ops|
  {
    if ops != [] {
      assert ops[0] in ops && forall op | op in ops[1..] :: op in ops;
      OpsKeepHolder(Apply(t, ops[0]), ops[1..], id, session);
    }
  }

  /** Without registrations no runner becomes idle. */
  lemma {:induction false} IdleShrinks(t: Table, ops: seq<Op>)
    requires forall op | op in ops :: !op.Put?
    ensures IdleIds(ApplyAll(t, ops)) <= IdleIds(t)
    decreases |ops|
  {
    if ops != [] {
      assert ops[0] in ops && forall op | op in ops[1..] :: op in ops;
      IdleShrinks(Apply(t, ops[0]), ops[1..]);
      assert IdleIds(Apply(t, ops[0])) <= IdleIds(t);
    }
  }

  /** None of the requests from `since` up to, not including, `n` failed. */
  ghost predicate Unfailed(fault: nat -> bool, since: nat, n: nat) {
    forall k: nat | since <= k < n :: !fault(k)
  }

  lemma UnfailedMore(fault: nat -> bool, since: nat, n: nat)
    ensures Unfailed(fault, n, n)
    ensures Unfailed(fault, since, n) && !fault(n) ==> Unfailed(fault, since, n + 1)
  {
  }
}
