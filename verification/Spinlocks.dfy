/** The spinlocks of kernel/src/util/spinlock.c under every interleaving of any number of CPUs: each step is one shared
    memory access. On top of it, the lock order of kernel/src/sched/sched.c. */
module Spinlocks {

  const NOBODY := -1

  /** `irq` marks a lock that also masks interrupts; `saved` is whether they were enabled, as last written to it. */
  datatype Lock = Lock(locked: bool, owner: int, irq: bool, saved: bool)

  /** What a CPU is told to do next with a lock. */
  datatype Cmd = Acquire(lock: nat) | Release(lock: nat)

  /** Where a CPU is inside spinlock_acquire or spinlock_release. */
  datatype Pc =
    | Between
    | Saving(lock: nat)   // the interrupt flag is saved in the lock, interrupts are not yet masked
    | Testing(lock: nat, saw: bool) // the lock word has been read for the recursion test, the owner not yet
    | Spinning(lock: nat) // the recursion test is behind it
    | Won(lock: nat)      // the compare-and-swap succeeded, the owner is not yet written
    | Clearing(lock: nat) // the owner is cleared, the lock word is not
    | Restoring(lock: nat) // the lock is free, the interrupt flag has not been read back from it

  /** `held` is what the CPU may rely on: the locks it has acquired and not yet begun to release. `alarm` says that the
      last recursion test fired, `ints` that interrupts are enabled. */
  datatype Cpu = Cpu(todo: seq<Cmd>, pc: Pc, held: set<nat>, alarm: bool, ints: bool)

  datatype State = State(cpus: seq<Cpu>, locks: seq<Lock>)

  /** A CPU that still has something to do, and releases only what it holds. */
  predicate Enabled(s: State, c: nat) {
    && c < |s.cpus| && s.cpus[c].todo != []
    && var cmd := s.cpus[c].todo[0];
    cmd.lock < |s.locks| && (cmd.Release? && s.cpus[c].pc.Between? ==> cmd.lock in s.cpus[c].held)
  }

  /** The next step of the CPU saves its interrupt flag in lock `l`. */
  predicate Enters(s: State, c: nat, l: nat) {
    && Enabled(s, c) && s.cpus[c].pc.Between? && s.cpus[c].todo[0] == Acquire(l) && s.locks[l].irq
  }

  function Step(s: State, c: nat): State
    requires Enabled(s, c)
  {
    var u := s.cpus[c];
    var l := u.todo[0].lock;
    var k := s.locks[l];
    match u.pc
    case Between =>
      if Enters(s, c, l) then
        State(s.cpus[c := u.(pc := Saving(l))], s.locks[l := k.(saved := u.ints)])
      else if u.todo[0].Acquire? then
        State(s.cpus[c := u.(pc := Testing(l, k.locked))], s.locks)
      else
        State(s.cpus[c := u.(pc := Clearing(l), held := u.held - {l})], s.locks[l := k.(owner := NOBODY)])
    case Saving(_) =>
      State(s.cpus[c := u.(pc := Testing(l, k.locked), ints := false)], s.locks)
    case Testing(_, saw) =>
      State(s.cpus[c := u.(pc := Spinning(l), alarm := saw && k.owner == c)], s.locks)
    case Spinning(_) =>
      if k.locked then s
      else State(s.cpus[c := u.(pc := Won(l))], s.locks[l := k.(locked := true)])
    case Won(_) =>
      State(s.cpus[c := u.(pc := Between, held := u.held + {l}, todo := u.todo[1..])], s.locks[l := k.(owner := c)])
    case Clearing(_) =>
      State(s.cpus[c := if k.irq then u.(pc := Restoring(l)) else u.(pc := Between, todo := u.todo[1..])],
            s.locks[l := k.(locked := false)])
    case Restoring(_) =>
      State(s.cpus[c := u.(pc := Between, todo := u.todo[1..], ints := k.saved)], s.locks)
  }

  // ---- mutual exclusion

  /** Whether the lock word is set on account of this CPU. */
  predicate Occupies(u: Cpu, l: nat) {
    l in u.held || u.pc == Won(l) || u.pc == Clearing(l)
  }

  ghost predicate CpuOk(u: Cpu, n: nat) {
    && (!u.pc.Between? ==> u.todo != [] && u.pc.lock == u.todo[0].lock < n)
    && (u.pc.Testing? ==> u.todo[0].Acquire? && (u.pc.lock in u.held ==> u.pc.saw))
    && (u.pc.Saving? || u.pc.Spinning? || u.pc.Won? ==> u.todo[0].Acquire?)
    && (u.pc.Clearing? || u.pc.Restoring? ==> u.todo[0].Release?)
    && (forall l :: l in u.held ==> l < n)
    && (u.pc.Won? || u.pc.Clearing? || u.pc.Restoring? ==> u.pc.lock !in u.held)
  }

  ghost predicate LockOk(s: State, l: nat)
    requires l < |s.locks|
  {
    && (s.locks[l].locked <==> exists c :: 0 <= c < |s.cpus| && Occupies(s.cpus[c], l))
    && (forall c, d :: 0 <= c < d < |s.cpus| && Occupies(s.cpus[c], l) ==> !Occupies(s.cpus[d], l))
    && (forall c :: 0 <= c < |s.cpus| ==> (s.locks[l].owner == c <==> l in s.cpus[c].held))
  }

  ghost predicate Safe(s: State) {
    && (forall c :: 0 <= c < |s.cpus| ==> CpuOk(s.cpus[c], |s.locks|))
    && (forall l :: 0 <= l < |s.locks| ==> LockOk(s, l))
  }

  lemma LockFrame(s: State, s': State, c: nat, l: nat)
    requires c < |s.cpus| == |s'.cpus| && l < |s.locks| == |s'.locks| && LockOk(s, l)
    requires s'.locks[l].locked == s.locks[l].locked && s'.locks[l].owner == s.locks[l].owner
    requires forall d :: 0 <= d < |s.cpus| && d != c ==> s'.cpus[d] == s.cpus[d]
    requires Occupies(s'.cpus[c], l) == Occupies(s.cpus[c], l) && (l in s'.cpus[c].held <==> l in s.cpus[c].held)
    ensures LockOk(s', l)
  {
    forall d | 0 <= d < |s.cpus| ensures Occupies(s'.cpus[d], l) == Occupies(s.cpus[d], l) {
    }
    if exists d :: 0 <= d < |s.cpus| && Occupies(s.cpus[d], l) {
      var d :| 0 <= d < |s.cpus| && Occupies(s.cpus[d], l);
      assert Occupies(s'.cpus[d], l);
    }
  }

  lemma StepSafe(s: State, c: nat)
    requires Safe(s) && Enabled(s, c)
    ensures Safe(Step(s, c)) && |Step(s, c).cpus| == |s.cpus| && |Step(s, c).locks| == |s.locks|
  {
    var s', u := Step(s, c), s.cpus[c];
    var l := u.todo[0].lock;
    assert CpuOk(u, |s.locks|) && LockOk(s, l);
    assert l in u.held ==> Occupies(u, l) && s.locks[l].locked;
    forall m | 0 <= m < |s'.locks| ensures LockOk(s', m) {
      assert LockOk(s, m);
      if m != l {
        LockFrame(s, s', c, m);
      } else {
        StepLock(s, c);
      }
    }
  }

  /** What a step does to the lock it is about. */
  lemma StepLock(s: State, c: nat)
    requires Safe(s) && Enabled(s, c)
    ensures LockOk(Step(s, c), s.cpus[c].todo[0].lock)
  {
    var s', u := Step(s, c), s.cpus[c];
    var l := u.todo[0].lock;
    assert CpuOk(u, |s.locks|) && LockOk(s, l);
    match u.pc
    case Between =>
      if u.todo[0].Acquire? { LockFrame(s, s', c, l); } else { Holder(s, s', c, l); }
    case Saving(_) => LockFrame(s, s', c, l);
    case Testing(_, _) => LockFrame(s, s', c, l);
    case Spinning(_) =>
      if !s.locks[l].locked { Holder(s, s', c, l); }
    case Won(_) => Holder(s, s', c, l);
    case Clearing(_) =>
      assert Occupies(u, l);
      forall d | 0 <= d < |s.cpus| ensures !Occupies(s'.cpus[d], l) {
        var v := s.cpus[d];
        assert d != c ==> !(Occupies(v, l) && Occupies(u, l));
      }
    case Restoring(_) => LockFrame(s, s', c, l);
  }

  /** A lock whose word is set on account of `c` after the step, and was so or was free before. */
  lemma Holder(s: State, s': State, c: nat, l: nat)
    requires c < |s.cpus| == |s'.cpus| && l < |s.locks| == |s'.locks| && LockOk(s, l) && s'.locks[l].locked
    requires forall d :: 0 <= d < |s.cpus| && d != c ==> s'.cpus[d] == s.cpus[d]
    requires Occupies(s'.cpus[c], l) && (Occupies(s.cpus[c], l) || !s.locks[l].locked)
    requires if l in s'.cpus[c].held then s'.locks[l].owner == c
      else s'.locks[l].owner == NOBODY || (s'.locks[l].owner == s.locks[l].owner && l !in s.cpus[c].held)
    ensures LockOk(s', l)
  {
    forall d | 0 <= d < |s.cpus| && d != c ensures !Occupies(s'.cpus[d], l) {
      var u, v, k := s.cpus[c], s.cpus[d], s.locks[l];
      assert !(Occupies(v, l) && Occupies(u, l)) && (Occupies(v, l) ==> k.locked);
    }
  }

  /** No two CPUs hold the same lock. */
  lemma MutualExclusion(s: State, c: nat, d: nat, l: nat)
    requires Safe(s) && c < |s.cpus| && d < |s.cpus| && l in s.cpus[c].held && l in s.cpus[d].held
    ensures c == d
  {
    assert CpuOk(s.cpus[c], |s.locks|) && LockOk(s, l);
    assert Occupies(s.cpus[c], l) && Occupies(s.cpus[d], l);
  }

  /** The recursive-deadlock report fires exactly when the caller holds the lock it asks for. */
  lemma AlarmExact(s: State, c: nat)
    requires Safe(s) && Enabled(s, c) && s.cpus[c].pc.Testing?
    ensures Step(s, c).cpus[c].alarm <==> s.cpus[c].todo[0].lock in s.cpus[c].held
  {
    assert CpuOk(s.cpus[c], |s.locks|) && LockOk(s, s.cpus[c].todo[0].lock);
  }

  /** The owner test of spinlock_release never fires for a holder. */
  lemma ReleaseByOwner(s: State, c: nat)
    requires Safe(s) && Enabled(s, c) && s.cpus[c].pc.Between? && s.cpus[c].todo[0].Release?
    ensures s.locks[s.cpus[c].todo[0].lock].owner == c
  {
    assert LockOk(s, s.cpus[c].todo[0].lock);
  }

  predicate Initial(s: State) {
    && (forall c :: 0 <= c < |s.cpus| ==> s.cpus[c] == Cpu(s.cpus[c].todo, Between, {}, false, s.cpus[c].ints))
    && (forall l :: 0 <= l < |s.locks| ==> s.locks[l] == Lock(false, NOBODY, s.locks[l].irq, s.locks[l].saved))
  }

  /** Any interleaving: the CPUs step in the order given; one that cannot step is passed over. */
  function Run(s: State, order: seq<nat>): State
    decreases |order|
  {
    if order == [] then s else Run(if Enabled(s, order[0]) then Step(s, order[0]) else s, order[1..])
  }

  lemma InitialSafe(s: State)
    requires Initial(s)
    ensures Safe(s)
  {
    forall l | 0 <= l < |s.locks| ensures LockOk(s, l) {
      forall c | 0 <= c < |s.cpus| ensures !Occupies(s.cpus[c], l) {
      }
    }
  }

  lemma {:induction false} EveryInterleaving(s: State, order: seq<nat>)
    requires Safe(s)
    ensures Safe(Run(s, order))
    decreases |order|
  {
    if order != [] {
      if Enabled(s, order[0]) { StepSafe(s, order[0]); }
      EveryInterleaving(if Enabled(s, order[0]) then Step(s, order[0]) else s, order[1..]);
    }
  }

  // ---- locks that mask interrupts

  /** The interrupt flags that CPUs save in lock `l` during a run, in order. */
  function Saved(s: State, order: seq<nat>, l: nat): seq<bool>
    decreases |order|
  {
    if order == [] then []
    else if !Enabled(s, order[0]) then Saved(s, order[1..], l)
    else (if Enters(s, order[0], l) then [s.cpus[order[0]].ints] else []) + Saved(Step(s, order[0]), order[1..], l)
  }

  lemma StepSaves(s: State, c: nat, l: nat)
    requires Enabled(s, c) && l < |s.locks|
    ensures |Step(s, c).locks| == |s.locks| && Step(s, c).locks[l].irq == s.locks[l].irq
    ensures Step(s, c).locks[l].saved == if Enters(s, c, l) then s.cpus[c].ints else s.locks[l].saved
  {
  }

  /** A lock keeps the flag of the CPU that came last, whether or not that CPU has got the lock. */
  lemma {:induction false} LastSaved(s: State, order: seq<nat>, l: nat)
    requires l < |s.locks|
    ensures |Run(s, order).locks| == |s.locks|
    ensures var q := Saved(s, order, l);
      Run(s, order).locks[l].saved == if q == [] then s.locks[l].saved else q[|q|-1]
    decreases |order|
  {
    hide Step, Enabled, Enters;
    if order != [] {
      if Enabled(s, order[0]) {
        StepSaves(s, order[0], l);
        LastSaved(Step(s, order[0]), order[1..], l);
      } else {
        LastSaved(s, order[1..], l);
      }
    }
  }

  /** From the moment a CPU enters an interrupt lock to the moment its release gives the interrupt flag back: it gets
      back what it had exactly when no CPU has entered since, or the last one to do so had the same flag. */
  lemma RestoreExact(s: State, c: nat, l: nat, order: seq<nat>)
    requires Enters(s, c, l)
    requires var r := Run(Step(s, c), order); Enabled(r, c) && r.cpus[c].pc.Restoring? && r.cpus[c].todo[0].lock == l
    ensures var r, q := Run(Step(s, c), order), Saved(Step(s, c), order, l);
      Step(r, c).cpus[c].ints == s.cpus[c].ints <==> q == [] || q[|q|-1] == s.cpus[c].ints
  {
    StepSaves(s, c, l);
    LastSaved(Step(s, c), order, l);
  }

  const ROUND := [Acquire(0), Release(0)]

  /** Two CPUs about to take and release an interrupt lock, with their interrupt flags. */
  function Contended(a: bool, b: bool): State {
    State([Cpu(ROUND, Between, {}, false, a), Cpu(ROUND, Between, {}, false, b)], [Lock(false, NOBODY, true, false)])
  }

  /** The first CPU somewhere in its round, the second waiting for the lock or not there yet. */
  function Stage(todo: seq<Cmd>, pc: Pc, held: set<nat>, a: bool, waits: bool, b: bool, k: Lock): State {
    State([Cpu(todo, pc, held, false, a), Cpu(ROUND, if waits then Saving(0) else Between, {}, false, b)], [k])
  }

  lemma Goes(s: State, c: nat, s': State, order: seq<nat>)
    requires Enabled(s, c) && Step(s, c) == s'
    ensures Run(s, [c] + order) == Run(s', order)
  {
    assert ([c] + order)[1..] == order;
  }

  /** The first CPU takes the lock. */
  lemma Takes(a: bool, b: bool, order: seq<nat>)
    ensures Run(Contended(a, b), [0] + ([0] + ([0] + ([0] + ([0] + order)))))
         == Run(Stage([Release(0)], Between, {0}, false, false, b, Lock(true, 0, true, a)), order)
  {
    hide Run;
    var free := Lock(false, NOBODY, true, a);
    var s1 := Stage(ROUND, Saving(0), {}, a, false, b, free);
    var s2 := Stage(ROUND, Testing(0, false), {}, false, false, b, free);
    var s3 := Stage(ROUND, Spinning(0), {}, false, false, b, free);
    var s4 := Stage(ROUND, Won(0), {}, false, false, b, free.(locked := true));
    var s5 := Stage([Release(0)], Between, {0}, false, false, b, Lock(true, 0, true, a));
    assert ROUND[1..] == [Release(0)] && {} + {0} == {0};
    Goes(Contended(a, b), 0, s1, [0] + ([0] + ([0] + ([0] + order))));
    Goes(s1, 0, s2, [0] + ([0] + ([0] + order)));
    Goes(s2, 0, s3, [0] + ([0] + order));
    Goes(s3, 0, s4, [0] + order);
    Goes(s4, 0, s5, order);
  }

  /** The first CPU releases the lock, for which the second waits. */
  lemma Releases(b: bool)
    ensures Run(Stage([Release(0)], Between, {0}, false, true, b, Lock(true, 0, true, b)), [0] + ([0] + ([0] + [])))
         == Stage([], Between, {}, b, true, b, Lock(false, NOBODY, true, b))
  {
    var s6 := Stage([Release(0)], Between, {0}, false, true, b, Lock(true, 0, true, b));
    var s7 := Stage([Release(0)], Clearing(0), {}, false, true, b, Lock(true, NOBODY, true, b));
    var s8 := Stage([Release(0)], Restoring(0), {}, false, true, b, Lock(false, NOBODY, true, b));
    var s9 := Stage([], Between, {}, b, true, b, Lock(false, NOBODY, true, b));
    RunEnds(s9);
    hide Run;
    assert {0} - {0} == {} && [Release(0)][1..] == [];
    Goes(s6, 0, s7, [0] + ([0] + []));
    Goes(s7, 0, s8, [0] + []);
    Goes(s8, 0, s9, []);
  }

  function Contention(): seq<nat> {
    [0] + ([0] + ([0] + ([0] + ([0] + ([1] + ([0] + ([0] + ([0] + []))))))))
  }

  /** The first CPU takes the lock, the second comes to wait for it, and the first releases it: the first ends with the
      interrupt flag of the second, so where it differs its own is lost. */
  lemma ContenderDecides(a: bool, b: bool)
    ensures Initial(Contended(a, b)) && |Run(Contended(a, b), Contention()).cpus| == 2
    ensures var u := Run(Contended(a, b), Contention()).cpus[0]; u.todo == [] && u.ints == b
  {
    hide Run, Initial;
    StartsInitial(a, b);
    var s5 := Stage([Release(0)], Between, {0}, false, false, b, Lock(true, 0, true, a));
    var s6 := Stage([Release(0)], Between, {0}, false, true, b, Lock(true, 0, true, b));
    Takes(a, b, [1] + ([0] + ([0] + ([0] + []))));
    Goes(s5, 1, s6, [0] + ([0] + ([0] + [])));
    Releases(b);
  }

  lemma StartsInitial(a: bool, b: bool)
    ensures Initial(Contended(a, b))
  {
  }

  lemma RunEnds(s: State)
    ensures Run(s, []) == s
  {
  }

  // ---- lock order

  /** Carried out from `held`, the commands acquire in ascending order only, release only what is held, and end with
      nothing held. */
  predicate Ordered(held: set<nat>, todo: seq<Cmd>, n: nat)
    decreases |todo|
  {
    if todo == [] then held == {}
    else if todo[0].Acquire? then
      todo[0].lock < n && (forall h :: h in held ==> h < todo[0].lock) && Ordered(held + {todo[0].lock}, todo[1..], n)
    else todo[0].lock in held && todo[0].lock < n && Ordered(held - {todo[0].lock}, todo[1..], n)
  }

  predicate CpuOrdered(u: Cpu, n: nat) {
    if u.pc.Clearing? || u.pc.Restoring? then u.todo != [] && Ordered(u.held, u.todo[1..], n)
    else Ordered(u.held, u.todo, n)
  }

  ghost predicate AllOrdered(s: State) {
    forall c :: 0 <= c < |s.cpus| ==> CpuOrdered(s.cpus[c], |s.locks|)
  }

  lemma StepOrdered(s: State, c: nat)
    requires Safe(s) && AllOrdered(s) && Enabled(s, c)
    ensures AllOrdered(Step(s, c))
  {
    var u := s.cpus[c];
    assert CpuOk(u, |s.locks|) && CpuOrdered(u, |s.locks|);
  }

  lemma {:induction false} EveryOrderedInterleaving(s: State, order: seq<nat>)
    requires Safe(s) && AllOrdered(s)
    ensures Safe(Run(s, order)) && AllOrdered(Run(s, order))
    ensures |Run(s, order).cpus| == |s.cpus| && |Run(s, order).locks| == |s.locks|
    decreases |order|
  {
    if order != [] {
      if Enabled(s, order[0]) {
        StepSafe(s, order[0]);
        StepOrdered(s, order[0]);
      }
      EveryOrderedInterleaving(if Enabled(s, order[0]) then Step(s, order[0]) else s, order[1..]);
    }
  }

  /** CPU `c` spins for lock `l`, which `d` occupies. */
  predicate Waits(s: State, c: nat, d: nat, l: nat) {
    c < |s.cpus| && d < |s.cpus| && s.cpus[c].pc == Spinning(l) && Occupies(s.cpus[d], l)
  }

  /** Along the waits-for relation the locks ascend. */
  lemma WaitsAscend(s: State, c: nat, d: nat, e: nat, l: nat, m: nat)
    requires Safe(s) && AllOrdered(s) && Waits(s, c, d, l) && Waits(s, d, e, m)
    ensures l < m
  {
    assert CpuOk(s.cpus[d], |s.locks|) && CpuOrdered(s.cpus[d], |s.locks|);
  }

  ghost predicate WaitPath(s: State, path: seq<nat>, locks: seq<nat>) {
    |path| == |locks| + 1 && forall i :: 0 <= i < |locks| ==> Waits(s, path[i], path[i+1], locks[i])
  }

  lemma {:induction false} PathAscends(s: State, path: seq<nat>, locks: seq<nat>, i: nat)
    requires Safe(s) && AllOrdered(s) && WaitPath(s, path, locks) && 0 < i < |locks|
    ensures locks[0] < locks[i]
    decreases i
  {
    assert Waits(s, path[i-1], path[i], locks[i-1]) && Waits(s, path[i], path[i+1], locks[i]);
    WaitsAscend(s, path[i-1], path[i], path[i+1], locks[i-1], locks[i]);
    if i > 1 {
      PathAscends(s, path, locks, i - 1);
    }
  }

  /** The waits-for relation has no cycle. */
  lemma NoCycle(s: State, path: seq<nat>, locks: seq<nat>)
    requires Safe(s) && AllOrdered(s) && WaitPath(s, path, locks) && |locks| >= 1
    ensures path[0] != path[|locks|]
  {
    var n := |locks|;
    var first, last := path[0], path[n];
    assert Waits(s, path[0], path[1], locks[0]) && Waits(s, path[n-1], path[n], locks[n-1]);
    if first == last {
      WaitsAscend(s, path[n-1], path[n], path[1], locks[n-1], locks[0]);
      if n > 1 {
        PathAscends(s, path, locks, n - 1);
      }
    }
  }

  predicate Moves(s: State, c: nat) {
    Enabled(s, c) && !(s.cpus[c].pc.Spinning? && s.locks[s.cpus[c].todo[0].lock].locked)
  }

  /** As long as anyone has anything left to do, someone can get on with it. */
  lemma {:induction false} Progress(s: State, c: nat) returns (d: nat)
    requires Safe(s) && AllOrdered(s) && c < |s.cpus| && s.cpus[c].todo != []
    ensures d < |s.cpus| && Moves(s, d)
    decreases |s.locks| - s.cpus[c].todo[0].lock
  {
    var u := s.cpus[c];
    assert CpuOk(u, |s.locks|) && CpuOrdered(u, |s.locks|);
    if Moves(s, c) {
      return c;
    }
    var l := u.pc.lock;
    assert LockOk(s, l);
    d :| 0 <= d < |s.cpus| && Occupies(s.cpus[d], l);
    var v := s.cpus[d];
    assert CpuOk(v, |s.locks|) && CpuOrdered(v, |s.locks|);
    if !Moves(s, d) {
      WaitsAscendOne(s, c, d, l);
      d := Progress(s, d);
    }
  }

  lemma WaitsAscendOne(s: State, c: nat, d: nat, l: nat)
    requires Safe(s) && AllOrdered(s) && Waits(s, c, d, l) && !Moves(s, d)
    ensures s.cpus[d].todo != [] && l < s.cpus[d].todo[0].lock < |s.locks|
  {
    var v := s.cpus[d];
    assert CpuOk(v, |s.locks|) && CpuOrdered(v, |s.locks|);
    assert LockOk(s, l);
  }

  // ---- the scheduler's use of the run-queue locks

  function EnqueueScript(rq: nat): seq<Cmd> {
    [Acquire(rq), Release(rq)]
  }

  /** One attempt of try_steal: both locks, the one with the lower address first. */
  function StealScript(own: nat, victim: nat): seq<Cmd> {
    var first, second := if own > victim then victim else own, if own > victim then own else victim;
    [Acquire(first), Acquire(second), Release(second), Release(first)]
  }

  function StealAll(own: nat, victims: seq<nat>): seq<Cmd> {
    if victims == [] then [] else (if victims[0] == own then []
      else StealScript(own, victims[0])) + StealAll(own, victims[1..])
  }

  /** schedule: the own lock, given up for the attempts to steal when there is nothing to run. */
  function ScheduleScript(own: nat, steal: bool, victims: seq<nat>): seq<Cmd> {
    [Acquire(own)] + (if steal then [Release(own)] + StealAll(own, victims) + [Acquire(own)] else []) + [Release(own)]
  }

  lemma {:induction false} OrderedThen(held: set<nat>, a: seq<Cmd>, b: seq<Cmd>, n: nat)
    requires Ordered(held, a, n) && Ordered({}, b, n)
    ensures Ordered(held, a + b, n)
    decreases |a|
  {
    if a == [] {
      assert a + b == b;
    } else {
      assert (a + b)[0] == a[0] && (a + b)[1..] == a[1..] + b;
      OrderedThen(if a[0].Acquire? then held + {a[0].lock} else held - {a[0].lock}, a[1..], b, n);
    }
  }

  lemma EnqueueOrdered(rq: nat, n: nat)
    requires rq < n
    ensures Ordered({}, EnqueueScript(rq), n)
  {
    var e := EnqueueScript(rq);
    assert Ordered({} + {rq} - {rq}, e[1..][1..], n);
    assert Ordered({} + {rq}, e[1..], n);
  }

  lemma StealOrdered(own: nat, victim: nat, n: nat)
    requires own < n && victim < n && own != victim
    ensures Ordered({}, StealScript(own, victim), n)
  {
    var e := StealScript(own, victim);
    var first, second := e[0].lock, e[1].lock;
    assert {first} + {second} - {second} - {first} == {};
    assert Ordered({first} + {second} - {second} - {first}, e[1..][1..][1..][1..], n);
    assert Ordered({first} + {second} - {second}, e[1..][1..][1..], n);
    assert Ordered({first} + {second}, e[1..][1..], n);
    assert {} + {first} == {first};
    assert Ordered({} + {first}, e[1..], n);
  }

  lemma {:induction false} StealAllOrdered(own: nat, victims: seq<nat>, n: nat)
    requires own < n && forall i :: 0 <= i < |victims| ==> victims[i] < n
    ensures Ordered({}, StealAll(own, victims), n)
  {
    if victims != [] {
      StealAllOrdered(own, victims[1..], n);
      if victims[0] == own {
        assert [] + StealAll(own, victims[1..]) == StealAll(own, victims[1..]);
      } else {
        StealOrdered(own, victims[0], n);
        OrderedThen({}, StealScript(own, victims[0]), StealAll(own, victims[1..]), n);
      }
    }
  }

  /** Whatever schedule does with the run-queue locks, it does in ascending order. */
  lemma ScheduleOrdered(own: nat, steal: bool, victims: seq<nat>, n: nat)
    requires own < n && forall i :: 0 <= i < |victims| ==> victims[i] < n
    ensures Ordered({}, ScheduleScript(own, steal, victims), n)
  {
    EnqueueOrdered(own, n);
    var e := EnqueueScript(own);
    if steal {
      StealAllOrdered(own, victims, n);
      OrderedThen({}, e, StealAll(own, victims), n);
      OrderedThen({}, e + StealAll(own, victims), e, n);
      assert ScheduleScript(own, steal, victims) == e + StealAll(own, victims) + e;
    } else {
      assert ScheduleScript(own, steal, victims) == e;
    }
  }

  datatype Call = EnqueueOn(rq: nat) | ScheduleOn(own: nat, steal: bool, victims: seq<nat>)

  predicate CallOk(call: Call, n: nat) {
    match call
    case EnqueueOn(rq) => rq < n
    case ScheduleOn(own, _, victims) => own < n && forall i :: 0 <= i < |victims| ==> victims[i] < n
  }

  function Script(call: Call): seq<Cmd> {
    match call
    case EnqueueOn(rq) => EnqueueScript(rq)
    case ScheduleOn(own, steal, victims) => ScheduleScript(own, steal, victims)
  }

  function Program(calls: seq<Call>): seq<Cmd> {
    if calls == [] then [] else Script(calls[0]) + Program(calls[1..])
  }

  lemma {:induction false} ProgramOrdered(calls: seq<Call>, n: nat)
    requires forall i :: 0 <= i < |calls| ==> CallOk(calls[i], n)
    ensures Ordered({}, Program(calls), n)
  {
    if calls != [] {
      ProgramOrdered(calls[1..], n);
      match calls[0] {
        case EnqueueOn(rq) => EnqueueOrdered(rq, n);
        case ScheduleOn(own, steal, victims) => ScheduleOrdered(own, steal, victims, n);
      }
      OrderedThen({}, Script(calls[0]), Program(calls[1..]), n);
    }
  }

  /** Any number of CPUs making any scheduler calls, interleaved in any way: every lock has one holder at most, the
      locks are taken in order, and unless all are done some CPU can get on. */
  lemma SchedulerNeverDeadlocks(s: State, programs: seq<seq<Call>>, order: seq<nat>)
    requires Initial(s) && |programs| == |s.cpus|
    requires forall c, i :: 0 <= c < |programs| && 0 <= i < |programs[c]| ==> CallOk(programs[c][i], |s.locks|)
    requires forall c :: 0 <= c < |s.cpus| ==> s.cpus[c].todo == Program(programs[c])
    ensures var r := Run(s, order);
      && Safe(r) && AllOrdered(r)
      && ((exists c :: 0 <= c < |r.cpus| && r.cpus[c].todo != []) ==> exists d :: 0 <= d < |r.cpus| && Moves(r, d))
  {
    InitialSafe(s);
    forall c | 0 <= c < |s.cpus| ensures CpuOrdered(s.cpus[c], |s.locks|) {
      ProgramOrdered(programs[c], |s.locks|);
    }
    EveryOrderedInterleaving(s, order);
    var r := Run(s, order);
    if exists c :: 0 <= c < |r.cpus| && r.cpus[c].todo != [] {
      var c :| 0 <= c < |r.cpus| && r.cpus[c].todo != [];
      var d := Progress(r, c);
    }
  }

  /** With the locks taken in order, the recursion report never fires. */
  lemma NoAlarm(s: State, c: nat)
    requires Safe(s) && AllOrdered(s) && Enabled(s, c) && s.cpus[c].pc.Testing?
    ensures !Step(s, c).cpus[c].alarm
  {
    AlarmExact(s, c);
    assert CpuOk(s.cpus[c], |s.locks|) && CpuOrdered(s.cpus[c], |s.locks|);
  }
}
