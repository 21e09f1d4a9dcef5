/** Who owns a shell: the manager's methods one at a time, and their locked regions in any interleaving. */
module ShellManager {
  import opened Text

  datatype ManagerError = NoId | NotMade | DuplicateId | ShellNotFound | CloseFailed

  class Handle {
    const closeFails: bool
    var closed: bool

    constructor (closeFails: bool)
      ensures !closed && this.closeFails == closeFails
    {
      this.closeFails, closed := closeFails, false;
    }

    /** A shell is closed once. */
    method Close() returns (ok: bool)
      requires !closed
      modifies this
      ensures closed && ok == !closeFails
    {
      closed := true;
      ok := !closeFails;
    }
  }

  class Manager {
    var shells: map<string, Handle>

    constructor ()
      ensures shells == map[] && Valid()
    {
      shells := map[];
    }

    /** The shells in the map are open and pairwise different. */
    ghost predicate Valid() reads this, shells.Values {
      && (forall id | id in shells :: !shells[id].closed)
      && forall i, j | i in shells && j in shells && i != j :: shells[i] != shells[j]
    }

    /** `id` is what the generator gives; `made` says whether the factory succeeds. */
    method Create(id: Option<string>, made: bool, closeFails: bool)
      returns (shell: Option<Handle>, error: Option<ManagerError>, ghost lost: set<Handle>)
      requires Valid()
      modifies this
      ensures Valid() && fresh(lost) && forall h | h in lost :: h.closed
      ensures error.None? <==> id.Some? && made && id.value !in old(shells)
      ensures error.None? ==>
                && shell.Some? && fresh(shell.value) && !shell.value.closed && lost == {}
                && shells == old(shells)[id.value := shell.value]
      ensures error.Some? ==> shell.None? && shells == old(shells)
      ensures error == Some(DuplicateId) <==> id.Some? && made && id.value in old(shells)
      ensures lost != {} ==> error == Some(DuplicateId)
    {
      lost := {};
      if id.None? { return None, Some(NoId), lost; }
      if !made { return None, Some(NotMade), lost; }
      var h := new Handle(closeFails);
      if id.value in shells {
        var _ := h.Close();
        lost := {h};
        return None, Some(DuplicateId), lost;
      }
      shells := shells[id.value := h];
      return Some(h), None, lost;
    }

    method Get(id: string) returns (shell: Option<Handle>)
      requires Valid()
      ensures shell == if id in shells then Some(shells[id]) else None
      ensures shell.Some? ==> !shell.value.closed
    {
      if id !in shells { return None; }
      return Some(shells[id]);
    }

    method Delete(id: string) returns (error: Option<ManagerError>)
      requires Valid()
      modifies this, shells.Values
      ensures Valid() && shells == old(shells) - {id}
      ensures error == (if id !in old(shells) then Some(ShellNotFound)
                        else if old(shells[id].closeFails) then Some(CloseFailed) else None)
      ensures id in old(shells) ==> old(shells[id]).closed
      ensures forall h | h in old(shells).Values && (id in old(shells) ==> h != old(shells[id])) :: !h.closed
    {
      if id !in shells { return Some(ShellNotFound); }
      var shell := shells[id];
      shells := shells - {id};
      var ok := shell.Close();
      return if ok then None else Some(CloseFailed);
    }

    /** Closes every shell, also after a failure. */
    method CloseAll() returns (error: Option<ManagerError>)
      requires Valid()
      modifies this, shells.Values
      ensures Valid() && shells == map[]
      ensures forall h | h in old(shells).Values :: h.closed
      ensures error == if exists h :: h in old(shells).Values && h.closeFails then Some(CloseFailed) else None
    {
      var all := shells;
      shells := map[];
      var left := all.Keys;
      error := None;
      while left != {}
        invariant left <= all.Keys && shells == map[]
        invariant forall id | id in all :: all[id].closed <==> id !in left
        invariant error == if exists id :: id in all.Keys - left && all[id].closeFails then Some(CloseFailed) else None
        decreases |left|
      {
        var id :| id in left;
        var ok := all[id].Close();
        if !ok && error.None? { error := Some(CloseFailed); }
        left := left - {id};
      }
      assert (exists h :: h in all.Values && h.closeFails) <==> exists id :: id in all.Keys && all[id].closeFails;
    }
  }

  // ---- the locked regions of many calls, interleaved ----

  /**
   Shells are numbered as the factory makes them. `creating` holds what unfinished Create calls have made, `pending`
   and `closed` count the closes still to be done and done.
   */
  datatype State = State(made: nat, creating: map<nat, nat>, shells: map<string, nat>, pending: multiset<nat>,
      closed: multiset<nat>)

  ghost function KeysOf<K>(m: map<K, nat>, h: nat): set<K> {
    set k | k in m && m[k] == h
  }

  /** How many places hold shell `h`. */
  ghost function Holders(s: State, h: nat): nat {
    |KeysOf(s.creating, h)| + |KeysOf(s.shells, h)| + s.pending[h] + s.closed[h]
  }

  /** Every shell the factory made is held once. */
  ghost predicate Owned(s: State) {
    forall h: nat :: Holders(s, h) == if h < s.made then 1 else 0
  }

  ghost function ValuesOf(m: map<string, nat>): multiset<nat>
    decreases |m|
  {
    if m == map[] then multiset{}
    else
      var k :| k in m;
      multiset{m[k]} + ValuesOf(m - {k})
  }

  datatype Action =
    | Make(call: nat)
    | Insert(call: nat, id: string)
    | Remove(id: string)
    | SwapAll
    | CloseOne(h: nat)

  ghost predicate Enabled(s: State, a: Action) {
    match a
    case Make(call) => call !in s.creating
    case Insert(call, _) => call in s.creating
    case Remove(id) => id in s.shells
    case SwapAll => true
    case CloseOne(h) => h in s.pending
  }

  ghost function After(s: State, a: Action): State
    requires Enabled(s, a)
  {
    match a
    case Make(call) => s.(made := s.made + 1, creating := s.creating[call := s.made])
    case Insert(call, id) =>
      var h := s.creating[call];
      if id in s.shells then s.(creating := s.creating - {call}, pending := s.pending + multiset{h})
      else s.(creating := s.creating - {call}, shells := s.shells[id := h])
    case Remove(id) => s.(shells := s.shells - {id}, pending := s.pending + multiset{s.shells[id]})
    case SwapAll => s.(shells := map[], pending := s.pending + ValuesOf(s.shells))
    case CloseOne(h) => s.(pending := s.pending - multiset{h}, closed := s.closed + multiset{h})
  }

  lemma AddKey<K>(m: map<K, nat>, k: K, v: nat, h: nat)
    requires k !in m
    ensures |KeysOf(m[k := v], h)| == |KeysOf(m, h)| + if v == h then 1 else 0
  {
    if v == h {
      assert KeysOf(m[k := v], h) == KeysOf(m, h) + {k};
    } else {
      assert KeysOf(m[k := v], h) == KeysOf(m, h);
    }
  }

  lemma DropKey<K>(m: map<K, nat>, k: K, h: nat)
    requires k in m
    ensures |KeysOf(m, h)| == |KeysOf(m - {k}, h)| + if m[k] == h then 1 else 0
  {
    AddKey(m - {k}, k, m[k], h);
    assert (m - {k})[k := m[k]] == m;
  }

  lemma {:induction false} CountValues(m: map<string, nat>, h: nat)
    ensures ValuesOf(m)[h] == |KeysOf(m, h)|
    decreases |m|
  {
    if m == map[] {
      assert KeysOf(m, h) == {};
    } else {
      var k :| k in m && ValuesOf(m) == multiset{m[k]} + ValuesOf(m - {k});
      DropKey(m, k, h);
      CountValues(m - {k}, h);
    }
  }

  /** Every step keeps every shell held exactly once, so no shell is ever closed twice. */
  lemma StepKeepsOwnership(s: State, a: Action)
    requires Owned(s) && Enabled(s, a)
    ensures Owned(After(s, a))
    ensures a.CloseOne? ==> s.closed[a.h] == 0
  {
    var t := After(s, a);
    if a.CloseOne? { assert Holders(s, a.h) <= 1; }
    forall h: nat ensures Holders(t, h) == if h < t.made then 1 else 0 {
      assert Holders(s, h) == if h < s.made then 1 else 0;
      match a {
        case Make(call) => AddKey(s.creating, call, s.made, h);
        case Insert(call, id) =>
          DropKey(s.creating, call, h);
          if id !in s.shells { AddKey(s.shells, id, s.creating[call], h); }
        case Remove(id) => DropKey(s.shells, id, h);
        case SwapAll =>
          CountValues(s.shells, h);
          assert KeysOf(t.shells, h) == {};
        case CloseOne(_) =>
      }
    }
  }

  ghost predicate IsRun(states: seq<State>, actions: seq<Action>) {
    && |states| == |actions| + 1 && states[0] == State(0, map[], map[], multiset{}, multiset{})
    && forall i | 0 <= i < |actions| :: Enabled(states[i], actions[i]) && states[i + 1] == After(states[i], actions[i])
  }

  lemma {:induction false} AlwaysOwned(states: seq<State>, actions: seq<Action>, n: nat)
    requires IsRun(states, actions) && n <= |actions|
    ensures Owned(states[n])
  {
    if n == 0 {
      forall h: nat ensures Holders(states[0], h) == 0 {
        assert KeysOf(states[0].creating, h) == {} && KeysOf(states[0].shells, h) == {};
      }
    } else {
      AlwaysOwned(states, actions, n - 1);
      StepKeepsOwnership(states[n - 1], actions[n - 1]);
    }
  }

  lemma NeverClosedTwice(states: seq<State>, actions: seq<Action>, n: nat, h: nat)
    requires IsRun(states, actions) && n <= |actions|
    ensures states[n].closed[h] <= 1
  {
    AlwaysOwned(states, actions, n);
    assert Holders(states[n], h) <= 1;
  }

  /** With no close outstanding, every shell made is closed exactly when neither a Create nor the map holds one. */
  lemma AllClosedExactly(s: State)
    requires Owned(s) && s.pending == multiset{}
    ensures (forall h | 0 <= h < s.made :: s.closed[h] == 1) <==> s.creating == map[] && s.shells == map[]
  {
    if s.creating == map[] && s.shells == map[] {
      forall h | 0 <= h < s.made ensures s.closed[h] == 1 {
        assert Holders(s, h) == 1;
        assert KeysOf(s.creating, h) == {} && KeysOf(s.shells, h) == {};
      }
    } else if s.creating != map[] {
      var k :| k in s.creating;
      HeldOpen(s, s.creating, k);
    } else {
      var k :| k in s.shells;
      HeldOpen(s, s.shells, k);
    }
  }

  lemma HeldOpen<K>(s: State, m: map<K, nat>, k: K)
    requires Owned(s) && k in m
    requires |KeysOf(m, m[k])| <= |KeysOf(s.creating, m[k])| + |KeysOf(s.shells, m[k])|
    ensures m[k] < s.made && s.closed[m[k]] == 0
  {
    assert k in KeysOf(m, m[k]);
    assert Holders(s, m[k]) <= 1;
  }

  lemma {:induction false} NothingNew(states: seq<State>, actions: seq<Action>, i: nat, n: nat)
    requires IsRun(states, actions) && i <= n <= |actions|
    requires states[i].creating == map[] && states[i].shells == map[]
    requires forall k | i <= k < n :: !actions[k].Make?
    ensures states[n].creating == map[] && states[n].shells == map[]
    decreases n - i
  {
    if i < n {
      assert !actions[i].Make?;
      NothingNew(states, actions, i + 1, n);
    }
  }

  /** After a CloseAll with no Create in flight or later, once the closes under way are done all shells are closed. */
  lemma ShutdownClosesAll(states: seq<State>, actions: seq<Action>, i: nat, n: nat)
    requires IsRun(states, actions) && i < n <= |actions|
    requires actions[i].SwapAll? && states[i].creating == map[] && forall k | i <= k < n :: !actions[k].Make?
    requires states[n].pending == multiset{}
    ensures forall h | 0 <= h < states[n].made :: states[n].closed[h] == 1
  {
    NothingNew(states, actions, i + 1, n);
    AlwaysOwned(states, actions, n);
    AllClosedExactly(states[n]);
  }
}
