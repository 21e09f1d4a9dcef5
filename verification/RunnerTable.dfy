/**
 The table of runners that all brokers of one stack share, as both stores present it:
 a map from runner id to a slot, changed only by atomic conditional operations.
 */
module RunnerTable {
  import opened Ids

  /** Malformed stands for a stored record the broker cannot read; it is never handed out. */
  datatype Slot = Idle(host: string) | Busy(host: string, session: string) | Malformed

  type Table = map<string, Slot>

  datatype Op =
    | Put(id: string, host: string)
    | Assign(id: string, session: string)
    | Remove(id: string)

  datatype State = StateIdle | StateBusy

  datatype Runner = Runner(runnerId: string, state: State, currentSessionId: string, privateHost: string)

  datatype StoreError =
    | ErrNotFound
    | ErrNoIdleRunner
    | ErrConflict
    | ErrInvalidRunnerId
    | ErrInvalidPrivateHost
    | ErrBackend

  datatype Result<+T> = Success(value: T) | Failure(error: StoreError)

  predicate IsIdle(t: Table, id: string) {
    id in t && t[id].Idle?
  }

  predicate Holds(t: Table, id: string, session: string) {
    id in t && t[id].Busy? && t[id].session == session
  }

  ghost predicate NobodyHolds(t: Table, session: string) {
    forall id :: !Holds(t, id, session)
  }

  /** A runner value as a reader must see it: state, host and session exactly those of the slot. */
  predicate Reads(t: Table, r: Runner) {
    r.runnerId in t &&
    match t[r.runnerId]
    case Idle(host) => r.state == StateIdle && r.privateHost == host && r.currentSessionId == ""
    case Busy(host, session) => r.state == StateBusy && r.privateHost == host && r.currentSessionId == session
    case Malformed => false
  }

  predicate Registrable(t: Table, id: string, host: string) {
    ValidRunnerId(id) && host != "" && id !in t
  }

  /** What one atomic store operation does; an operation whose condition fails does nothing. */
  function Apply(t: Table, op: Op): Table {
    match op
    case Put(id, host) => if Registrable(t, id, host) then t[id := Idle(host)] else t
    case Assign(id, session) => if IsIdle(t, id) then t[id := Busy(t[id].host, session)] else t
    case Remove(id) => t - {id}
  }

  function IdleIds(t: Table): set<string> {
    set id | id in t && t[id].Idle?
  }
}
