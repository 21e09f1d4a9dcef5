/** A session keeps its runner through whatever any number of brokers do, until the runner is deleted. */
module Stickiness {
  import opened Text
  import opened RunnerTable
  import opened BrokerTypes
  import opened BrokerService
  import opened Interleaving

  /** The record holding a session keeps host and session, and stays its only holder, while nobody deletes it. */
  lemma HolderStays(states: seq<System>, steps: seq<Step>, i: nat, j: nat, id: string, session: string)
    requires IsRun(states, steps) && Start(states[0]) && i <= j < |states|
    requires Holds(states[i].table, id, session)
    requires forall k | i <= k < j :: !Deletes(states[k], steps[k], id)
    ensures OnlyHolder(states[j].table, session, id) && states[j].table[id] == states[i].table[id]
  {
    KeepsSession(states, steps, i, j, id);
    InvAlways(states, steps, j);
  }

  /**
   Any moment later, a resolve of the session whose lookup finds the table of that moment finds the record; if its
   check passes the answer is the host held at first, not created, over an unchanged table.
   */
  lemma ResolvesAgain(states: seq<System>, steps: seq<Step>, i: nat, j: nat, id: string, stackPrefix: string,
                      sessionHex: string, after: Table, story: Story, r: Outcome<ResolveResult>)
    requires IsRun(states, steps) && Start(states[0]) && i <= j < |states| && SEPARATOR !in stackPrefix
    requires Holds(states[i].table, id, Namespaced(stackPrefix, sessionHex))
    requires forall k | i <= k < j :: !Deletes(states[k], steps[k], id)
    requires Looked(states[j].table, after, Namespaced(stackPrefix, sessionHex), story, r)
    requires story.found.Some? || story.created.Some?
    ensures story.found == Some(id) && story.news != [] && story.news[0].host == states[i].table[id].host
    ensures story.news[0].verdict == Healthy ==>
              && r == Ok(ResolveResult(Namespaced(stackPrefix, sessionHex), sessionHex, states[i].table[id].host,
                  false, false))
              && after == states[j].table
  {
    hide IsRun, Start, Deletes;
    HolderStays(states, steps, i, j, id, Namespaced(stackPrefix, sessionHex));
    SplitNamespaced(stackPrefix, sessionHex);
    assert !NobodyHolds(states[j].table, Namespaced(stackPrefix, sessionHex));
  }

  /** So does an app lookup: whatever record it reads the session from is that one, at that host. */
  lemma LooksUpAgain(states: seq<System>, steps: seq<Step>, i: nat, j: nat, id: string, stackPrefix: string,
                     sessionHex: string, x: string)
    requires IsRun(states, steps) && Start(states[0]) && i <= j < |states|
    requires Holds(states[i].table, id, Namespaced(stackPrefix, sessionHex))
    requires forall k | i <= k < j :: !Deletes(states[k], steps[k], id)
    ensures !NobodyHolds(states[j].table, Namespaced(stackPrefix, sessionHex))
    ensures Holds(states[j].table, x, Namespaced(stackPrefix, sessionHex)) ==>
              x == id && states[j].table[x].host == states[i].table[id].host
  {
    hide IsRun, Start, Deletes, Namespaced;
    HolderStays(states, steps, i, j, id, Namespaced(stackPrefix, sessionHex));
    assert Holds(states[j].table, id, Namespaced(stackPrefix, sessionHex));
  }
}
