/** Replacing the handler file: write a sibling temp file, rename it over the target. */
module HandlerFile {
  import opened Text

  type Bytes = seq<int>

  function Look(fs: map<string, Bytes>, path: string): Option<Bytes> {
    if path in fs then Some(fs[path]) else None
  }

  function TempPath(dir: string, base: string, pid: nat, n: nat): string {
    dir + "/." + base + "." + Decimal(pid) + "." + Decimal(n) + ".tmp"
  }

  function Target(dir: string, base: string): string {
    dir + "/" + base
  }

  /** No two calls of one process share a temp path, and none of them is the target. */
  lemma TempPathsDistinct(dir: string, base: string, pid: nat, m: nat, n: nat)
    ensures TempPath(dir, base, pid, m) == TempPath(dir, base, pid, n) <==> m == n
    ensures TempPath(dir, base, pid, n) != Target(dir, base)
  {
    var head, tail := dir + "/." + base + "." + Decimal(pid) + ".", ".tmp";
    var a, b := TempPath(dir, base, pid, m), TempPath(dir, base, pid, n);
    assert a == head + Decimal(m) + tail && b == head + Decimal(n) + tail;
    ParseDecimal(m);
    ParseDecimal(n);
    if a == b {
      assert |Decimal(m)| == |Decimal(n)|;
      assert Decimal(m) == a[|head|..|head| + |Decimal(m)|] == Decimal(n);
    }
    assert |b| > |Target(dir, base)|;
  }

  // ---- one call ----

  class Disk {
    var files: map<string, Bytes>
    var counter: nat

    constructor (files: map<string, Bytes>)
      ensures this.files == files && counter == 0
    {
      this.files, counter := files, 0;
    }

    /** When writing fails, `kept` bytes reach the temp file, or it cannot even be opened. */
    method WriteHandlerAtomically(dir: string, base: string, pid: nat, data: Bytes, writeOk: bool, renameOk: bool,
                                  kept: Option<nat>)
      returns (ok: bool)
      requires kept.Some? ==> kept.value <= |data|
      modifies this
      ensures counter == old(counter) + 1 && ok == (writeOk && renameOk)
      ensures var tmp, target := TempPath(dir, base, pid, counter), Target(dir, base);
              && Look(files, target) == (if ok then Some(data) else Look(old(files), target))
              && Look(files, tmp) == (if writeOk then None
                                      else if kept.Some? then Some(data[..kept.value]) else Look(old(files), tmp))
              && forall p | p != tmp && p != target :: Look(files, p) == Look(old(files), p)
    {
      counter := counter + 1;
      var tmp, target := TempPath(dir, base, pid, counter), Target(dir, base);
      TempPathsDistinct(dir, base, pid, counter, counter);
      if !writeOk {
        if kept.Some? { files := files[tmp := data[..kept.value]]; }
        return false;
      }
      files := files[tmp := data];
      if !renameOk {
        files := files - {tmp};
        return false;
      }
      files := files[target := files[tmp]] - {tmp};
      return true;
    }
  }

  // ---- many calls, interleaved ----

  datatype Writer = Writing(n: nat, offset: nat) | Removing(n: nat)

  /** `bodies` remembers what the n-th call was asked to write, `published` whose body was renamed last. */
  datatype State = State(fs: map<string, Bytes>, counter: nat, writers: map<nat, Writer>, bodies: map<nat, Bytes>,
                         published: Option<nat>)

  datatype Step =
    | FailOpen(call: nat)
    | Begin(call: nat, body: Bytes)
    | WriteSome(call: nat, count: nat)
    | FailWrite(call: nat)
    | Rename(call: nat)
    | FailRename(call: nat)
    | Remove(call: nat)

  function Zeros(n: nat): (z: Bytes)
    ensures |z| == n
  {
    seq(n, _ => 0)
  }

  /** A write at an offset of a file that others may have cut or written meanwhile. */
  function WriteAt(content: Bytes, offset: nat, chunk: Bytes): Bytes {
    var head := if |content| < offset then content + Zeros(offset - |content|) else content[..offset];
    head + chunk + if offset + |chunk| < |content| then content[offset + |chunk|..] else []
  }

  ghost predicate Enabled(name: nat -> string, s: State, a: Step) {
    match a
    case FailOpen(call) => call !in s.writers
    case Begin(call, _) => call !in s.writers
    case Remove(call) => call in s.writers && s.writers[call].Removing?
    case _ =>
      && a.call in s.writers && s.writers[a.call].Writing? && s.writers[a.call].n in s.bodies
      && var (body, at) := (s.bodies[s.writers[a.call].n], s.writers[a.call].offset);
      match a
      case WriteSome(_, count) => at + count <= |body|
      case Rename(_) => at == |body| && name(s.writers[a.call].n) in s.fs
      case FailRename(_) => at == |body|
      case _ => true
  }

  ghost function After(name: nat -> string, target: string, s: State, a: Step): State
    requires Enabled(name, s, a)
  {
    match a
    case FailOpen(_) => s.(counter := s.counter + 1)
    case Begin(call, body) =>
      var n := s.counter + 1;
      State(s.fs[name(n) := []], n, s.writers[call := Writing(n, 0)], s.bodies[n := body], s.published)
    case WriteSome(call, count) =>
      var (n, at) := (s.writers[call].n, s.writers[call].offset);
      var content := if name(n) in s.fs then s.fs[name(n)] else [];
      s.(fs := s.fs[name(n) := WriteAt(content, at, s.bodies[n][at..at + count])],
         writers := s.writers[call := Writing(n, at + count)])
    case FailWrite(call) => s.(writers := s.writers - {call})
    case Rename(call) =>
      var n := s.writers[call].n;
      s.(fs := s.fs[target := s.fs[name(n)]] - {name(n)}, writers := s.writers - {call}, published := Some(n))
    case FailRename(call) => s.(writers := s.writers[call := Removing(s.writers[call].n)])
    case Remove(call) => s.(fs := s.fs - {name(s.writers[call].n)}, writers := s.writers - {call})
  }

  ghost predicate Distinct(name: nat -> string, target: string) {
    (forall m, n | name(m) == name(n) :: m == n) && forall n :: name(n) != target
  }

  /** What readers of the target see. */
  ghost predicate Whole(target: string, fs0: map<string, Bytes>, s: State) {
    match s.published
    case None => Look(s.fs, target) == Look(fs0, target)
    case Some(n) => n in s.bodies && Look(s.fs, target) == Some(s.bodies[n])
  }

  ghost predicate OwnTemp(name: nat -> string, s: State, call: nat)
    requires call in s.writers
  {
    match s.writers[call]
    case Writing(n, at) =>
      n <= s.counter && n in s.bodies && at <= |s.bodies[n]| && Look(s.fs, name(n)) == Some(s.bodies[n][..at])
    case Removing(n) => n <= s.counter
  }

  ghost predicate Inv(name: nat -> string, target: string, fs0: map<string, Bytes>, s: State) {
    && Whole(target, fs0, s)
    && (forall n | n in s.bodies :: n <= s.counter)
    && (forall call | call in s.writers :: OwnTemp(name, s, call))
    && forall c, d | c in s.writers && d in s.writers && s.writers[c].n == s.writers[d].n :: c == d
  }

  lemma WriteAtEnd(content: Bytes, chunk: Bytes)
    ensures WriteAt(content, |content|, chunk) == content + chunk
  {
  }

  /** A step leaves the other calls' temp files alone. */
  lemma OtherTemps(name: nat -> string, target: string, s: State, a: Step, call: nat)
    requires Distinct(name, target) && Enabled(name, s, a) && call in s.writers && call != a.call
    requires OwnTemp(name, s, call) && (forall n | n in s.bodies :: n <= s.counter)
    requires a.call in s.writers ==> s.writers[a.call].n != s.writers[call].n
    ensures var t := After(name, target, s, a);
            call in t.writers && t.writers[call] == s.writers[call] && OwnTemp(name, t, call)
  {
    var t := After(name, target, s, a);
    var mine := s.writers[call].n;
    var path := if a.Begin? || a.FailOpen? then name(s.counter + 1) else name(s.writers[a.call].n);
    assert path != name(mine) && target != name(mine);
    assert Look(t.fs, name(mine)) == Look(s.fs, name(mine));
  }

  lemma OwnTempStep(name: nat -> string, target: string, s: State, a: Step)
    requires Distinct(name, target) && Enabled(name, s, a)
    requires a.call in s.writers ==> OwnTemp(name, s, a.call)
    ensures var t := After(name, target, s, a);
            a.call in t.writers ==>
              && OwnTemp(name, t, a.call)
              && t.writers[a.call].n == (if a.Begin? then t.counter else s.writers[a.call].n)
  {
    if a.WriteSome? {
      var (n, at) := (s.writers[a.call].n, s.writers[a.call].offset);
      WriteAtEnd(s.fs[name(n)], s.bodies[n][at..at + a.count]);
      assert s.bodies[n][..at] + s.bodies[n][at..at + a.count] == s.bodies[n][..at + a.count];
    } else if a.Begin? {
      assert a.body[..0] == [];
    }
  }

  lemma WholeStep(name: nat -> string, target: string, fs0: map<string, Bytes>, s: State, a: Step)
    requires Distinct(name, target) && Enabled(name, s, a) && Whole(target, fs0, s)
    requires (forall n | n in s.bodies :: n <= s.counter) && (a.call in s.writers ==> OwnTemp(name, s, a.call))
    ensures Whole(target, fs0, After(name, target, s, a))
  {
    var t := After(name, target, s, a);
    if a.Rename? {
      var body := s.bodies[s.writers[a.call].n];
      assert body[..|body|] == body && name(s.writers[a.call].n) != target;
    } else {
      var path := if a.Begin? || a.FailOpen? then name(s.counter + 1) else name(s.writers[a.call].n);
      assert path != target && Look(t.fs, target) == Look(s.fs, target);
    }
  }

  lemma InvStep(name: nat -> string, target: string, fs0: map<string, Bytes>, s: State, a: Step)
    requires Distinct(name, target) && Inv(name, target, fs0, s) && Enabled(name, s, a)
    ensures Inv(name, target, fs0, After(name, target, s, a))
  {
    hide Whole, OwnTemp, Distinct;
    var t := After(name, target, s, a);
    WholeStep(name, target, fs0, s, a);
    OwnTempStep(name, target, s, a);
    Numbers(name, s, a);
    forall call | call in t.writers && call != a.call
      ensures call in s.writers && t.writers[call] == s.writers[call] && OwnTemp(name, t, call)
    {
      OtherTemps(name, target, s, a, call);
    }
  }

  lemma Numbers(name: nat -> string, s: State, a: Step)
    ensures forall call | call in s.writers && OwnTemp(name, s, call) :: s.writers[call].n <= s.counter
  {
  }

  ghost predicate IsRun(name: nat -> string, target: string, fs0: map<string, Bytes>, states: seq<State>,
                        steps: seq<Step>)
  {
    && |states| == |steps| + 1 && states[0] == State(fs0, 0, map[], map[], None)
    && forall i | 0 <= i < |steps| ::
         Enabled(name, states[i], steps[i]) && states[i + 1] == After(name, target, states[i], steps[i])
  }

  lemma {:induction false} InvAlways(name: nat -> string, target: string, fs0: map<string, Bytes>, states: seq<State>,
                                     steps: seq<Step>, n: nat)
    requires Distinct(name, target) && IsRun(name, target, fs0, states, steps) && n <= |steps|
    ensures Inv(name, target, fs0, states[n])
  {
    if n > 0 {
      InvAlways(name, target, fs0, states, steps, n - 1);
      InvStep(name, target, fs0, states[n - 1], steps[n - 1]);
    }
  }

  /**
   At every moment of every interleaving the target holds its first content, or the complete body of the call that
   renamed last.
   */
  lemma AlwaysWhole(dir: string, base: string, pid: nat, fs0: map<string, Bytes>, states: seq<State>, steps: seq<Step>,
                    n: nat)
    requires IsRun((k: nat) => TempPath(dir, base, pid, k), Target(dir, base), fs0, states, steps) && n <= |steps|
    ensures Whole(Target(dir, base), fs0, states[n])
  {
    var name := (k: nat) => TempPath(dir, base, pid, k);
    forall m, k ensures (name(m) == name(k) ==> m == k) && name(k) != Target(dir, base) {
      TempPathsDistinct(dir, base, pid, m, k);
    }
    InvAlways(name, Target(dir, base), fs0, states, steps, n);
  }

  const FIRST: Bytes := [1, 1]
  const SECOND: Bytes := [2, 2]

  /** Two calls on one temp path, moment by moment, and the step that follows each. */
  function Moment(tmp: string, target: string, k: nat): State {
    var both := map[1 := FIRST, 2 := SECOND];
    if k == 0 then State(map[], 0, map[], map[], None)
    else if k == 1 then State(map[tmp := []], 1, map[0 := Writing(1, 0)], map[1 := FIRST], None)
    else if k == 2 then State(map[tmp := [1]], 1, map[0 := Writing(1, 1)], map[1 := FIRST], None)
    else if k == 3 then State(map[tmp := []], 2, map[0 := Writing(1, 1), 1 := Writing(2, 0)], both, None)
    else if k == 4 then State(map[tmp := SECOND], 2, map[0 := Writing(1, 1), 1 := Writing(2, 2)], both, None)
    else if k == 5 then State(map[tmp := [2, 1]], 2, map[0 := Writing(1, 2), 1 := Writing(2, 2)], both, None)
    else State(map[target := [2, 1]], 2, map[1 := Writing(2, 2)], both, Some(1))
  }

  const TEARING: seq<Step> :=
    [Begin(0, FIRST), WriteSome(0, 1), Begin(1, SECOND), WriteSome(1, 2), WriteSome(0, 1), Rename(0)]

  lemma MomentStep(tmp: string, target: string, k: nat)
    requires tmp != target && k < 6
    ensures Enabled((_: nat) => tmp, Moment(tmp, target, k), TEARING[k])
    ensures After((_: nat) => tmp, target, Moment(tmp, target, k), TEARING[k]) == Moment(tmp, target, k + 1)
  {
    hide WriteAt;
    Mixture();
    if k == 5 { assert Moment(tmp, target, 5).fs - {tmp} == map[]; }
  }

  lemma Mixture()
    ensures FIRST[0..1] == [1] && WriteAt([], 0, [1]) == [1]
    ensures SECOND[0..2] == SECOND && WriteAt([], 0, SECOND) == SECOND
    ensures FIRST[1..2] == [1] && WriteAt(SECOND, 1, [1]) == [2, 1]
  {
  }

  /** With one fixed temp path two overlapping calls publish a mixture. */
  lemma FixedPathTears(tmp: string, target: string) returns (states: seq<State>, steps: seq<Step>)
    requires tmp != target
    ensures IsRun((_: nat) => tmp, target, map[], states, steps)
    ensures Look(states[|steps|].fs, target) == Some([2, 1])
    ensures states[|steps|].bodies == map[1 := [1, 1], 2 := [2, 2]]
  {
    hide Enabled, After;
    steps := TEARING;
    states := seq(7, k requires 0 <= k < 7 => Moment(tmp, target, k));
    forall k | 0 <= k < 6
      ensures Enabled((_: nat) => tmp, states[k], steps[k])
      ensures After((_: nat) => tmp, target, states[k], steps[k]) == states[k + 1]
    {
      MomentStep(tmp, target, k);
    }
  }
}
