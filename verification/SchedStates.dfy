/** The multi-level feedback queue of kernel/src/sched/sched.c on one CPU, as a state machine: eight queues of
    threads, the thread that runs, and what every operation makes of them. Threads are named by numbers; 0 is the null
    pointer. */
module SchedStates {
  import opened Seqs
  import opened Words

  const LEVELS := 8
  const BOOST_INTERVAL := 200_000_000

  datatype Status = New | Ready | Running | Blocked | Sleeping | Zombie

  datatype Thread = Thread(status: Status, level: nat)

  datatype State = State(levels: seq<seq<nat>>, current: nat, idle: nat, threads: map<nat, Thread>, lastBoost: nat)

  ghost predicate QueueOk(threads: map<nat, Thread>, q: seq<nat>, lvl: nat) {
    NoDuplicates(q) && forall t :: t in q ==> t in threads && threads[t] == Thread(Ready, lvl)
  }

  /** Every queued thread is ready, and queued once and at its own level. */
  ghost predicate QueuesOk(s: State) {
    && |s.levels| == LEVELS && 0 !in s.threads && s.idle in s.threads
    && (forall t :: t in s.threads ==> s.threads[t].level < LEVELS)
    && (forall l :: 0 <= l < LEVELS ==> QueueOk(s.threads, s.levels[l], l))
  }

  /** Besides, the current thread is in no queue. */
  ghost predicate Ok(s: State) {
    QueuesOk(s) && s.current in s.threads && !Queued(s, s.current)
  }

  predicate Queued(s: State, t: nat) {
    exists l :: 0 <= l < |s.levels| && t in s.levels[l]
  }

  /** No thread is queued twice. */
  lemma QueuedOnce(s: State, t: nat, l: nat, i: nat, m: nat, j: nat)
    requires QueuesOk(s) && l < LEVELS && m < LEVELS && i < |s.levels[l]| && j < |s.levels[m]|
    requires s.levels[l][i] == t && s.levels[m][j] == t
    ensures l == m && i == j
  {
    assert QueueOk(s.threads, s.levels[l], l) && QueueOk(s.threads, s.levels[m], m);
    assert t in s.levels[l] && t in s.levels[m];
  }

  // ---- the operations

  /** Puts a thread at the end of the queue of its level, ready. */
  function Pushed(s: State, t: nat): State
    requires t in s.threads && s.threads[t].level < |s.levels|
  {
    var l := s.threads[t].level;
    s.(levels := s.levels[l := s.levels[l] + [t]], threads := s.threads[t := s.threads[t].(status := Ready)])
  }

  lemma PushOk(s: State, t: nat)
    requires QueuesOk(s) && t in s.threads && !Queued(s, t)
    ensures QueuesOk(Pushed(s, t)) && forall u :: Queued(Pushed(s, t), u) <==> Queued(s, u) || u == t
  {
    var s' := Pushed(s, t);
    forall l | 0 <= l < LEVELS ensures QueueOk(s'.threads, s'.levels[l], l) {
      assert QueueOk(s.threads, s.levels[l], l) && t !in s.levels[l];
    }
    forall u ensures Queued(s', u) <==> Queued(s, u) || u == t {
      PushMembers(s, t, u);
    }
  }

  lemma PushMembers(s: State, t: nat, u: nat)
    requires t in s.threads && s.threads[t].level < |s.levels|
    ensures Queued(Pushed(s, t), u) <==> Queued(s, u) || u == t
  {
    var s', k := Pushed(s, t), s.threads[t].level;
    assert t in s'.levels[k];
    if Queued(s, u) {
      var l :| 0 <= l < |s.levels| && u in s.levels[l];
      assert u in s'.levels[l];
    }
    if Queued(s', u) {
      var l :| 0 <= l < |s'.levels| && u in s'.levels[l];
      assert u in s.levels[l] || u == t;
    }
  }

  /** The queues one after the other. */
  function Flat(levels: seq<seq<nat>>): seq<nat> {
    if levels == [] then [] else levels[0] + Flat(levels[1..])
  }

  predicate BoostDue(s: State, now: nat) {
    s.lastBoost != 0 && (now - s.lastBoost) % WORD >= BOOST_INTERVAL
  }

  function Emptied(): seq<seq<nat>> {
    [[], [], [], [], [], [], []]
  }

  /** maybe_boost: when it is due, all queues are emptied into the topmost one, in order. */
  function Boosted(s: State, now: nat): State {
    if s.lastBoost == 0 then s.(lastBoost := now)
    else if !BoostDue(s, now) then s
    else State([Flat(s.levels)] + Emptied(), s.current, s.idle,
               map t | t in s.threads :: if Queued(s, t) then s.threads[t].(level := 0) else s.threads[t], now)
  }

  lemma {:induction false} FlatMembers(levels: seq<seq<nat>>, t: nat)
    ensures t in Flat(levels) <==> exists l :: 0 <= l < |levels| && t in levels[l]
  {
    if levels != [] {
      FlatMembers(levels[1..], t);
      if exists l :: 0 <= l < |levels| && t in levels[l] {
        var l :| 0 <= l < |levels| && t in levels[l];
        assert l > 0 ==> t in levels[1..][l-1];
      }
      if t in Flat(levels[1..]) {
        var l :| 0 <= l < |levels[1..]| && t in levels[1..][l];
        assert t in levels[l+1];
      }
    }
  }

  lemma {:induction false} FlatDistinct(levels: seq<seq<nat>>)
    requires forall l :: 0 <= l < |levels| ==> NoDuplicates(levels[l])
    requires forall l, m, t :: 0 <= l < m < |levels| && t in levels[l] ==> t !in levels[m]
    ensures NoDuplicates(Flat(levels))
  {
    if levels != [] {
      var rest := levels[1..];
      forall l, m, t | 0 <= l < m < |rest| && t in rest[l] ensures t !in rest[m] {
        assert t in levels[l+1];
      }
      FlatDistinct(rest);
      forall t | t in levels[0] ensures t !in Flat(rest) {
        FlatMembers(rest, t);
      }
      AppendDistinct(levels[0], Flat(rest));
    }
  }

  lemma AppendDistinct(a: seq<nat>, b: seq<nat>)
    requires NoDuplicates(a) && NoDuplicates(b) && forall t :: t in a ==> t !in b
    ensures NoDuplicates(a + b)
  {
    forall i, j | 0 <= i < |a| && 0 <= j < |b| ensures a[i] != b[j] {
      assert a[i] in a;
    }
  }

  lemma BoostOk(s: State, now: nat)
    requires QueuesOk(s)
    ensures QueuesOk(Boosted(s, now)) && forall t :: Queued(Boosted(s, now), t) <==> Queued(s, t)
  {
    if BoostDue(s, now) {
      var s' := Boosted(s, now);
      forall l, m, t | 0 <= l < m < LEVELS && t in s.levels[l] ensures t !in s.levels[m] {
        assert QueueOk(s.threads, s.levels[l], l) && QueueOk(s.threads, s.levels[m], m);
      }
      forall l | 0 <= l < LEVELS ensures NoDuplicates(s.levels[l]) { assert QueueOk(s.threads, s.levels[l], l); }
      FlatDistinct(s.levels);
      forall t ensures (t in Flat(s.levels) <==> Queued(s, t)) && (Queued(s', t) <==> Queued(s, t)) {
        FlatMembers(s.levels, t);
        assert Queued(s', t) <==> t in s'.levels[0];
      }
      forall t | t in Flat(s.levels) ensures t in s'.threads && s'.threads[t] == Thread(Ready, 0) {
        var l :| 0 <= l < LEVELS && t in s.levels[l];
        assert QueueOk(s.threads, s.levels[l], l);
      }
      assert QueueOk(s'.threads, s'.levels[0], 0);
    }
  }

  /** The first queue that is not empty; 8 if all are. */
  function FirstLevel(levels: seq<seq<nat>>): (l: nat)
    ensures l <= |levels| && (l < |levels| ==> levels[l] != []) && forall m :: 0 <= m < l ==> levels[m] == []
  {
    if levels == [] || levels[0] != [] then 0 else 1 + FirstLevel(levels[1..])
  }

  /** mlfq_pick_next takes the head of the first queue that has one. */
  function Popped(s: State, l: nat): State
    requires l < |s.levels| && s.levels[l] != []
  {
    s.(levels := s.levels[l := s.levels[l][1..]])
  }

  lemma PopOk(s: State, l: nat)
    requires QueuesOk(s) && l < LEVELS && s.levels[l] != []
    ensures QueuesOk(Popped(s, l)) && s.levels[l][0] in s.threads
    ensures forall t :: Queued(Popped(s, l), t) <==> Queued(s, t) && t != s.levels[l][0]
  {
    var s', h := Popped(s, l), s.levels[l][0];
    assert QueueOk(s.threads, s.levels[l], l) && h in s.levels[l];
    forall m | 0 <= m < LEVELS ensures QueueOk(s'.threads, s'.levels[m], m) {
      assert QueueOk(s.threads, s.levels[m], m);
    }
    forall t ensures Queued(s', t) <==> Queued(s, t) && t != h {
      if Queued(s', t) {
        var m :| 0 <= m < |s'.levels| && t in s'.levels[m];
        assert t in s.levels[m];
        assert QueueOk(s.threads, s.levels[m], m);
      }
      if Queued(s, t) && t != h {
        var m :| 0 <= m < |s.levels| && t in s.levels[m];
        assert t in s'.levels[m];
      }
    }
  }

  /** What schedule pushes back before it picks: the current thread, if it is running. */
  function Yielded(s: State): State
    requires s.current in s.threads && s.threads[s.current].level < |s.levels|
  {
    if s.threads[s.current].status == Running then Pushed(s, s.current) else s
  }

  function Dispatched(s: State, prev: nat, next: nat): State
    requires next in s.threads
  {
    if next == prev then s.(current := next)
    else s.(current := next, threads := s.threads[next := s.threads[next].(status := Running)])
  }

  /** schedule, without the stealing: a thread that picks itself is not marked as running again. */
  function Schedule(s: State, now: nat): State
    requires Ok(s)
  {
    PreparedOk(s, now);
    var s1 := Boosted(Yielded(s), now);
    var l := FirstLevel(s1.levels);
    if l == LEVELS then Dispatched(s1, s.current, s.idle)
    else PopOk(s1, l); Dispatched(Popped(s1, l), s.current, s1.levels[l][0])
  }

  lemma PreparedOk(s: State, now: nat)
    requires Ok(s)
    ensures s.current in s.threads && s.threads[s.current].level < |s.levels|
    ensures var s1 := Boosted(Yielded(s), now);
      && QueuesOk(s1) && s1.current == s.current && s1.idle == s.idle && s1.threads.Keys == s.threads.Keys
      && (forall t :: Queued(s1, t) <==> Queued(s, t) || (t == s.current && s.threads[t].status == Running))
  {
    if s.threads[s.current].status == Running {
      PushOk(s, s.current);
    }
    BoostOk(Yielded(s), now);
  }

  /** schedule keeps the books in order, and loses no one but a current thread that was not marked as running. */
  lemma ScheduleOk(s: State, now: nat)
    requires Ok(s)
    ensures Ok(Schedule(s, now)) && Schedule(s, now).threads.Keys == s.threads.Keys
    ensures forall t :: t != s.idle ==>
      (OnCpuOrQueued(Schedule(s, now), t) <==> Queued(s, t) || (t == s.current && s.threads[t].status == Running))
    ensures forall t :: Queued(Schedule(s, now), t) ==>
      Queued(s, t) || (t == s.current && s.threads[t].status == Running)
  {
    hide Boosted, Yielded, QueueOk, Queued;
    PreparedOk(s, now);
    var s1 := Boosted(Yielded(s), now);
    var l := FirstLevel(s1.levels);
    if l == LEVELS {
      forall t ensures !Queued(s1, t) { NotQueued(s1, t); }
      DispatchOk(s1, s.current, s.idle);
    } else {
      PopOk(s1, l);
      HeadQueued(s1, l);
      DispatchOk(Popped(s1, l), s.current, s1.levels[l][0]);
    }
  }

  lemma NotQueued(s: State, t: nat)
    requires FirstLevel(s.levels) == |s.levels|
    ensures !Queued(s, t)
  {
  }

  lemma HeadQueued(s: State, l: nat)
    requires l < |s.levels| && s.levels[l] != []
    ensures Queued(s, s.levels[l][0])
  {
    assert s.levels[l][0] in s.levels[l];
  }

  predicate OnCpuOrQueued(s: State, t: nat) {
    t == s.current || Queued(s, t)
  }

  lemma DispatchOk(s: State, prev: nat, next: nat)
    requires QueuesOk(s) && next in s.threads && !Queued(s, next)
    ensures Ok(Dispatched(s, prev, next)) && forall t :: Queued(Dispatched(s, prev, next), t) <==> Queued(s, t)
  {
    var s' := Dispatched(s, prev, next);
    forall l | 0 <= l < LEVELS ensures QueueOk(s'.threads, s'.levels[l], l) {
      assert QueueOk(s.threads, s.levels[l], l) && next !in s.levels[l];
    }
    forall t ensures Queued(s', t) <==> Queued(s, t) {
      assert s'.levels == s.levels;
    }
  }

  // ---- whole runs

  datatype Op =
    | Enqueue(t: nat)
    | Wake(t: nat)
    | Dequeue(t: nat)
    | BlockCurrent
    | ExitCurrent
    | Demote
    | DoSchedule(now: nat)

  /** What the callers see to: a thread is enqueued or woken only when it is off the CPU, enqueued only when it is in no
      queue, and dequeued only when it is in one. */
  predicate Enabled(s: State, op: Op) {
    match op
    case Enqueue(t) => t in s.threads && t != s.current && !Queued(s, t)
    case Wake(t) => t in s.threads && t != s.current
    case Dequeue(t) => Queued(s, t)
    case _ => true
  }

  function Removed(s: State, t: nat): State
    requires t in s.threads && s.threads[t].level < |s.levels|
  {
    var l := s.threads[t].level;
    s.(levels := s.levels[l := Without(s.levels[l], t)])
  }

  lemma {:induction false} WithoutKeeps(q: seq<nat>, t: nat)
    requires NoDuplicates(q)
    ensures NoDuplicates(Without(q, t)) && forall u :: u in Without(q, t) <==> u in q && u != t
  {
    if q != [] && q[0] != t {
      WithoutKeeps(q[1..], t);
      AppendDistinct([q[0]], Without(q[1..], t));
    }
  }

  lemma RemoveOk(s: State, t: nat)
    requires QueuesOk(s) && Queued(s, t)
    ensures t in s.threads && QueuesOk(Removed(s, t)) && forall u :: Queued(Removed(s, t), u) <==>
      Queued(s, u) && u != t
  {
    var k :| 0 <= k < LEVELS && t in s.levels[k];
    assert QueueOk(s.threads, s.levels[k], k);
    var s' := Removed(s, t);
    WithoutKeeps(s.levels[k], t);
    forall l | 0 <= l < LEVELS ensures QueueOk(s'.threads, s'.levels[l], l) {
      assert QueueOk(s.threads, s.levels[l], l);
    }
    forall u ensures Queued(s', u) <==> Queued(s, u) && u != t {
      if Queued(s', u) {
        var l :| 0 <= l < |s'.levels| && u in s'.levels[l];
        assert u in s.levels[l] && QueueOk(s.threads, s.levels[l], l);
      }
      if Queued(s, u) && u != t {
        var l :| 0 <= l < |s.levels| && u in s.levels[l];
        assert u in s'.levels[l];
      }
    }
  }

  function Marked(s: State, status: Status): State
    requires s.current in s.threads
  {
    s.(threads := s.threads[s.current := s.threads[s.current].(status := status)])
  }

  /** sched_tick when the quantum is used up. */
  function Demoted(s: State): State
    requires s.current in s.threads
  {
    var t := s.threads[s.current];
    if t.level < LEVELS - 1 then s.(threads := s.threads[s.current := t.(level := t.level + 1)]) else s
  }

  predicate Asleep(th: Thread) {
    th.status == Blocked || th.status == Sleeping
  }

  function Step(s: State, op: Op): State
    requires Ok(s) && Enabled(s, op)
  {
    match op
    case Enqueue(t) => Pushed(s, t)
    case Wake(t) => if Asleep(s.threads[t]) then Pushed(s, t) else s
    case Dequeue(t) => RemoveOk(s, t); Removed(s, t)
    case BlockCurrent => Marked(s, Blocked)
    case ExitCurrent => Marked(s, Zombie)
    case Demote => Demoted(s)
    case DoSchedule(now) => Schedule(s, now)
  }

  lemma CurrentChanged(s: State, th: Thread)
    requires Ok(s) && th.level < LEVELS
    ensures Ok(s.(threads := s.threads[s.current := th]))
  {
    var s' := s.(threads := s.threads[s.current := th]);
    forall l | 0 <= l < LEVELS ensures QueueOk(s'.threads, s'.levels[l], l) {
      assert QueueOk(s.threads, s.levels[l], l) && s.current !in s.levels[l];
    }
    assert Queued(s', s.current) <==> Queued(s, s.current);
  }

  lemma StepOk(s: State, op: Op)
    requires Ok(s) && Enabled(s, op)
    ensures Ok(Step(s, op)) && Step(s, op).threads.Keys == s.threads.Keys
  {
    match op
    case Enqueue(t) => PushOk(s, t);
    case Wake(t) =>
      if Asleep(s.threads[t]) {
        forall l | 0 <= l < LEVELS ensures t !in s.levels[l] { assert QueueOk(s.threads, s.levels[l], l); }
        PushOk(s, t);
      }
    case Dequeue(t) => RemoveOk(s, t);
    case BlockCurrent => CurrentChanged(s, s.threads[s.current].(status := Blocked));
    case ExitCurrent => CurrentChanged(s, s.threads[s.current].(status := Zombie));
    case Demote =>
      var t := s.threads[s.current];
      if t.level < LEVELS - 1 { CurrentChanged(s, t.(level := t.level + 1)); }
    case DoSchedule(now) => ScheduleOk(s, now);
  }

  predicate RunEnabled(s: State, ops: seq<Op>)
    requires Ok(s)
    decreases |ops|
  {
    ops == [] || (Enabled(s, ops[0]) && (StepOk(s, ops[0]); RunEnabled(Step(s, ops[0]), ops[1..])))
  }

  function Run(s: State, ops: seq<Op>): State
    requires Ok(s) && RunEnabled(s, ops)
    decreases |ops|
  {
    if ops == [] then s else StepOk(s, ops[0]); Run(Step(s, ops[0]), ops[1..])
  }

  /** In every run the books stay in order. */
  lemma {:induction false} EveryRun(s: State, ops: seq<Op>)
    requires Ok(s) && RunEnabled(s, ops)
    ensures Ok(Run(s, ops))
    decreases |ops|
  {
    if ops != [] {
      StepOk(s, ops[0]);
      EveryRun(Step(s, ops[0]), ops[1..]);
    }
  }

  /** A run up to operation `k`, and then operation `k`. */
  lemma {:induction false} RunUpTo(s: State, ops: seq<Op>, k: nat)
    requires Ok(s) && RunEnabled(s, ops) && k < |ops|
    ensures RunEnabled(s, ops[..k]) && RunEnabled(s, ops[..k+1])
    ensures var r := Run(s, ops[..k]); Ok(r) && Enabled(r, ops[k]) && Run(s, ops[..k+1]) == Step(r, ops[k])
    decreases k
  {
    StepOk(s, ops[0]);
    assert ops[..k+1][0] == ops[0] && ops[..k+1][1..] == ops[1..][..k];
    if k == 0 {
      assert ops[..0] == [] && ops[1..][..0] == [];
    } else {
      RunUpTo(Step(s, ops[0]), ops[1..], k - 1);
      assert ops[..k][0] == ops[0] && ops[..k][1..] == ops[1..][..k-1];
    }
  }

  // ---- how long a thread waits

  function Schedules(ops: seq<Op>): nat {
    if ops == [] then 0 else (if ops[0].DoSchedule? then 1 else 0) + Schedules(ops[1..])
  }

  lemma {:induction false} WithoutPlace(q: seq<nat>, u: nat, i: nat) returns (j: nat)
    requires i < |q| && q[i] != u
    ensures j <= i && j < |Without(q, u)| && Without(q, u)[j] == q[i]
  {
    if q[0] == u {
      j := i - 1;
    } else if i == 0 {
      j := 0;
    } else {
      j := WithoutPlace(q[1..], u, i - 1);
      j := j + 1;
    }
  }

  lemma FlatStarts(levels: seq<seq<nat>>)
    requires levels != []
    ensures levels[0] <= Flat(levels)
  {
  }

  /** A schedule takes the head of the topmost queue and moves everyone behind it one place forward. */
  lemma ScheduleAdvances(s: State, now: nat, i: nat)
    requires Ok(s) && i < |s.levels[0]|
    ensures i == 0 ==> Schedule(s, now).current == s.levels[0][0]
    ensures i > 0 ==> i - 1 < |Schedule(s, now).levels[0]| && Schedule(s, now).levels[0][i-1] == s.levels[0][i]
  {
    hide QueuesOk, Queued, Flat;
    PreparedOk(s, now);
    TopStays(s, now);
    var s1 := Boosted(Yielded(s), now);
    Eight(s1);
    PopOk(s1, 0);
  }

  lemma Eight(s: State)
    requires QueuesOk(s)
    ensures |s.levels| == LEVELS
  {
  }

  /** Neither a push nor a boost disturbs the topmost queue but at its end. */
  lemma TopStays(s: State, now: nat)
    requires Ok(s)
    ensures s.current in s.threads && s.threads[s.current].level < |s.levels|
    ensures var s1 := Boosted(Yielded(s), now); |s1.levels| > 0 && |s.levels| > 0 && s.levels[0] <= s1.levels[0]
  {
    var s0 := Yielded(s);
    FlatStarts(s0.levels);
  }

  /** No other operation moves a thread of the topmost queue backwards. */
  lemma StepAdvances(s: State, op: Op, t: nat, i: nat) returns (j: nat)
    requires Ok(s) && Enabled(s, op) && i < |s.levels[0]| && s.levels[0][i] == t && op != Dequeue(t) && !op.DoSchedule?
    ensures j <= i && j < |Step(s, op).levels[0]| && Step(s, op).levels[0][j] == t
  {
    j := i;
    match op
    case Dequeue(u) =>
      RemoveOk(s, u);
      if s.threads[u].level == 0 {
        j := WithoutPlace(s.levels[0], u, i);
      }
    case _ =>
  }

  /** A thread at place `i` of the topmost queue is on the CPU after at most i + 1 calls of schedule, whatever else
      happens in between, unless it is dequeued itself. */
  lemma {:induction false} WaitIsBounded(s: State, ops: seq<Op>, t: nat, i: nat) returns (k: nat)
    requires Ok(s) && RunEnabled(s, ops) && i < |s.levels[0]| && s.levels[0][i] == t
    requires Dequeue(t) !in ops && Schedules(ops) > i
    ensures 0 < k <= |ops| && RunEnabled(s, ops[..k]) && Run(s, ops[..k]).current == t && Schedules(ops[..k]) <= i + 1
    decreases |ops|
  {
    var op, rest := ops[0], ops[1..];
    StepOk(s, op);
    var s' := Step(s, op);
    if op.DoSchedule? && i == 0 {
      ScheduleAdvances(s, op.now, 0);
      k := 1;
      assert ops[..1] == [op] && [op][1..] == [];
      assert Schedules([op]) == 1;
    } else {
      var j;
      if op.DoSchedule? {
        ScheduleAdvances(s, op.now, i);
        j := i - 1;
      } else {
        j := StepAdvances(s, op, t, i);
      }
      k := WaitIsBounded(s', rest, t, j);
      assert ops[..k+1][0] == op && ops[..k+1][1..] == rest[..k];
      k := k + 1;
    }
  }

  // ---- the boost

  /** The place of a thread in the queues laid end to end. */
  lemma {:induction false} FlatPlace(levels: seq<seq<nat>>, l: nat, i: nat) returns (j: nat)
    requires l < |levels| && i < |levels[l]|
    ensures j < |Flat(levels)| && Flat(levels)[j] == levels[l][i]
  {
    if l == 0 {
      j := i;
    } else {
      j := FlatPlace(levels[1..], l - 1, i);
      j := j + |levels[0]|;
    }
  }

  lemma {:induction false} FlatGrows(levels: seq<seq<nat>>, l: nat, q: seq<nat>)
    requires l < |levels|
    ensures |Flat(levels[l := q])| == |Flat(levels)| - |levels[l]| + |q|
  {
    if l == 0 {
      assert levels[0 := q][1..] == levels[1..];
    } else {
      assert levels[l := q][1..] == levels[1..][l - 1 := q];
      FlatGrows(levels[1..], l - 1, q);
    }
  }

  /** A schedule that boosts takes the head of all queues laid end to end, and leaves the rest in the topmost one. */
  lemma DueSchedule(s: State, now: nat)
    requires Ok(s) && s.lastBoost > 0 && 200_000_000 <= now - s.lastBoost < WORD
    requires s.current in s.threads && s.threads[s.current].level < |s.levels| && Flat(Yielded(s).levels) != []
    ensures var s', q := Schedule(s, now), Flat(Yielded(s).levels);
      s'.lastBoost == now && s'.current == q[0] && |s'.levels| > 0 && s'.levels[0] == q[1..]
  {
    PreparedOk(s, now);
    hide QueuesOk, Queued, Flat, Yielded;
    var s1 := Boosted(Yielded(s), now);
    Eight(s1);
    PopOk(s1, 0);
  }

  lemma YieldedPlace(s: State, t: nat) returns (j: nat)
    requires Ok(s) && Queued(s, t)
    ensures s.current in s.threads && s.threads[s.current].level < |s.levels|
    ensures var q := Flat(Yielded(s).levels); j < |q| <= |Flat(s.levels)| + 1 && q[j] == t
  {
    var l :| 0 <= l < |s.levels| && t in s.levels[l];
    var i :| 0 <= i < |s.levels[l]| && s.levels[l][i] == t;
    var y, k := Yielded(s), s.threads[s.current].level;
    hide QueueOk, Queued, Flat;
    assert y.levels[l][i] == t;
    j := FlatPlace(y.levels, l, i);
    if s.threads[s.current].status == Running { FlatGrows(s.levels, k, s.levels[k] + [s.current]); }
  }

  /** 200 ms after the last boost every queued thread, however low its level, is dispatched or in the topmost queue. */
  lemma BoostRescues(s: State, now: nat, t: nat) returns (j: nat)
    requires Ok(s) && Queued(s, t) && s.lastBoost > 0 && 200_000_000 <= now - s.lastBoost < WORD
    ensures Ok(Schedule(s, now)) && Schedule(s, now).lastBoost == now
    ensures Schedule(s, now).current == t
      || (j < |Flat(s.levels)| && j < |Schedule(s, now).levels[0]| && Schedule(s, now).levels[0][j] == t)
  {
    hide QueuesOk, Queued, Flat, Schedule, Yielded;
    ScheduleOk(s, now);
    j := YieldedPlace(s, t);
    DueSchedule(s, now);
    j := if j == 0 then 0 else j - 1;
  }

  /** Before that nobody in a queue changes level. */
  lemma NoBoostYet(s: State, now: nat, t: nat)
    requires Ok(s) && t in s.threads && s.lastBoost > 0 && 0 <= now - s.lastBoost < 200_000_000
    ensures Schedule(s, now).lastBoost == s.lastBoost
    ensures t in Schedule(s, now).threads && Schedule(s, now).threads[t].level == s.threads[t].level
  {
    hide QueueOk, Queued, Flat;
    PreparedOk(s, now);
    var s1 := Boosted(Yielded(s), now);
    var l := FirstLevel(s1.levels);
    if l < LEVELS { PopOk(s1, l); }
  }

  /** No thread starves: once a boost is due, any thread in any queue is on the CPU after at most as many further calls
      of schedule as threads were queued, unless it is dequeued. */
  lemma NoStarvation(s: State, now: nat, ops: seq<Op>, t: nat) returns (k: nat)
    requires Ok(s) && Queued(s, t) && s.lastBoost > 0 && 200_000_000 <= now - s.lastBoost < WORD
    requires RunEnabled(s, [DoSchedule(now)] + ops) && Dequeue(t) !in ops && Schedules(ops) >= |Flat(s.levels)|
    ensures k <= |ops| && RunEnabled(s, [DoSchedule(now)] + ops[..k]) && Schedules(ops[..k]) <= |Flat(s.levels)|
    ensures Run(s, [DoSchedule(now)] + ops[..k]).current == t
  {
    hide QueuesOk, Queued, Schedule, Flat;
    var op := DoSchedule(now);
    StepOk(s, op);
    assert ([op] + ops)[1..] == ops;
    var j := BoostRescues(s, now, t);
    if Schedule(s, now).current == t {
      k := 0;
      assert ops[..0] == [];
    } else {
      k := WaitIsBounded(Schedule(s, now), ops, t, j);
    }
    assert ([op] + ops[..k])[1..] == ops[..k];
  }

  // ---- what the operations do, queue by queue

  /** A thread joins the end of the queue of its level, ready. */
  ghost predicate Joined(s: State, s': State, t: nat)
    requires t in s.threads && s.threads[t].level < |s.levels|
  {
    && (s'.current, s'.idle, s'.lastBoost) == (s.current, s.idle, s.lastBoost)
    && |s'.levels| == |s.levels| && s'.threads.Keys == s.threads.Keys
    && (forall u :: u in s.threads && u != t ==> s'.threads[u] == s.threads[u])
    && s'.threads[t] == Thread(Ready, s.threads[t].level)
    && forall l :: 0 <= l < |s.levels| ==> s'.levels[l] == s.levels[l] + if l == s.threads[t].level then [t] else []
  }

  /** Only the thread on the CPU changes, to `th`. */
  ghost predicate OnlyCurrent(s: State, s': State, th: Thread) {
    && (s'.current, s'.idle, s'.lastBoost, s'.levels) == (s.current, s.idle, s.lastBoost, s.levels)
    && s.current in s.threads && s'.threads.Keys == s.threads.Keys && s'.threads[s.current] == th
    && forall u :: u in s.threads && u != s.current ==> s'.threads[u] == s.threads[u]
  }

  /** A thread leaves the one place where it is queued. */
  ghost predicate Left(s: State, s': State, t: nat) {
    && (s'.current, s'.idle, s'.lastBoost, s'.threads) == (s.current, s.idle, s.lastBoost, s.threads)
    && |s'.levels| == |s.levels| && exists l, i ::
      && 0 <= l < |s.levels| && 0 <= i < |s.levels[l]| && s.levels[l][i] == t
      && s'.levels[l] == s.levels[l][..i] + s.levels[l][i+1..]
      && forall m :: 0 <= m < |s.levels| && m != l ==> s'.levels[m] == s.levels[m]
  }

  /** What sched.c promises of every operation but schedule. */
  ghost predicate Promised(s: State, op: Op, s': State)
    requires Ok(s) && Enabled(s, op) && !op.DoSchedule?
  {
    var th := s.threads[s.current];
    match op
    case Enqueue(t) => Joined(s, s', t)
    case Wake(t) =>
      if s.threads[t].status == Blocked || s.threads[t].status == Sleeping then Joined(s, s', t) else s' == s
    case Dequeue(t) => Left(s, s', t)
    case BlockCurrent => OnlyCurrent(s, s', Thread(Blocked, th.level))
    case ExitCurrent => OnlyCurrent(s, s', Thread(Zombie, th.level))
    case Demote => OnlyCurrent(s, s', Thread(th.status, if th.level == 7 then 7 else th.level + 1))
  }

  lemma StepPromised(s: State, op: Op)
    requires Ok(s) && Enabled(s, op) && !op.DoSchedule?
    ensures Promised(s, op, Step(s, op))
  {
    match op
    case Dequeue(t) =>
      RemoveOk(s, t);
      var l :| 0 <= l < |s.levels| && t in s.levels[l];
      var i :| 0 <= i < |s.levels[l]| && s.levels[l][i] == t;
      assert QueueOk(s.threads, s.levels[l], l);
      WithoutIndex(s.levels[l], i);
    case _ =>
  }

  /** A queue with the current thread behind it when that one runs and belongs there. */
  function WithCurrent(s: State, l: nat): seq<nat>
    requires s.current in s.threads && l < |s.levels|
  {
    s.levels[l] + if s.threads[s.current] == Thread(Running, l) then [s.current] else []
  }

  /** The first queue that has a thread. */
  ghost predicate FirstWith(s: State, l: nat)
    requires s.current in s.threads && l < |s.levels|
  {
    WithCurrent(s, l) != [] && forall m :: 0 <= m < l ==> WithCurrent(s, m) == []
  }

  /** Unless a boost is due, schedule lets the current thread join the end of its queue if it runs, dispatches the first
      thread of the first queue that has one, and leaves all queues in order; with all empty the idle thread runs. */
  lemma ScheduleMoves(s: State, now: nat, l: nat)
    requires Ok(s) && (s.lastBoost == 0 || 0 <= now - s.lastBoost < 200_000_000)
    ensures s.current in s.threads && |s.levels| == |Schedule(s, now).levels| == 8
    ensures l < 8 && FirstWith(s, l) ==>
      && Schedule(s, now).current == WithCurrent(s, l)[0] && Schedule(s, now).levels[l] == WithCurrent(s, l)[1..]
      && forall m :: 0 <= m < 8 && m != l ==> Schedule(s, now).levels[m] == WithCurrent(s, m)
    ensures (forall m :: 0 <= m < 8 ==> WithCurrent(s, m) == []) ==>
      Schedule(s, now).current == s.idle && forall m :: 0 <= m < 8 ==> Schedule(s, now).levels[m] == []
  {
    hide QueuesOk, Queued, Flat, WithCurrent, Boosted, Yielded;
    PreparedOk(s, now);
    Rejoined(s, now);
    var s1 := Boosted(Yielded(s), now);
    var first := FirstLevel(s1.levels);
    if first < 8 { PopOk(s1, first); }
  }

  lemma Rejoined(s: State, now: nat)
    requires Ok(s) && (s.lastBoost == 0 || 0 <= now - s.lastBoost < 200_000_000)
    ensures s.current in s.threads && s.threads[s.current].level < |s.levels| == 8
    ensures var s1 := Boosted(Yielded(s), now);
      |s1.levels| == 8 && forall m :: 0 <= m < 8 ==> s1.levels[m] == WithCurrent(s, m)
  {
    hide QueuesOk, Queued, Flat;
    PreparedOk(s, now);
    Eight(s);
  }

  // ---- when a runnable thread is lost

  predicate Runnable(s: State, t: nat) {
    t in s.threads && (s.threads[t].status == Ready || s.threads[t].status == Running)
  }

  /** A runnable thread that nothing leads to any longer. The idle thread needs no queue. */
  predicate Lost(s: State, t: nat) {
    Runnable(s, t) && t != s.idle && !OnCpuOrQueued(s, t)
  }

  ghost predicate NobodyLost(s: State) {
    forall t :: !Lost(s, t)
  }

  /** The current thread is on the CPU and yet marked as waiting for it. */
  predicate SelfReady(s: State) {
    s.current != s.idle && s.current in s.threads && s.threads[s.current].status == Ready
  }

  /** schedule changes the status of nobody whom it leaves off the CPU and out of the queues. */
  lemma ScheduleStatus(s: State, now: nat, t: nat)
    requires Ok(s) && t in s.threads && t != s.idle && !OnCpuOrQueued(Schedule(s, now), t)
    ensures t in Schedule(s, now).threads && Schedule(s, now).threads[t].status == s.threads[t].status
    ensures t == s.current ==> s.threads[t].status != Running
  {
    hide Boosted, Yielded, QueueOk, Queued;
    PreparedOk(s, now);
    ScheduleOk(s, now);
    PreparedStatus(s, now, t);
    var s1 := Boosted(Yielded(s), now);
    var l := FirstLevel(s1.levels);
    if l < LEVELS { PopOk(s1, l); }
  }

  /** Going back and boosting change the status of the current thread only. */
  lemma PreparedStatus(s: State, now: nat, t: nat)
    requires Ok(s) && t in s.threads
    ensures s.current in s.threads && s.threads[s.current].level < |s.levels|
    ensures var s1 := Boosted(Yielded(s), now);
      t in s1.threads && (t != s.current || s.threads[t].status != Running ==>
        s1.threads[t].status == s.threads[t].status)
  {
  }

  /** Every runnable thread on the CPU or in a queue stays so exactly when the current thread is not marked as ready. */
  lemma ScheduleKeepsRunnable(s: State, now: nat)
    requires Ok(s)
    ensures (forall t :: t != s.idle && Runnable(s, t) && OnCpuOrQueued(s, t) ==> OnCpuOrQueued(Schedule(s, now), t))
       <==> !SelfReady(s)
  {
    hide Schedule, QueuesOk, Queued;
    ScheduleOk(s, now);
    if SelfReady(s) {
      assert Runnable(s, s.current) && OnCpuOrQueued(s, s.current);
    }
  }

  lemma ScheduleLosesExact(s: State, now: nat)
    requires Ok(s) && NobodyLost(s)
    ensures NobodyLost(Schedule(s, now)) <==> !SelfReady(s)
  {
    hide Schedule, QueuesOk, Queued;
    ScheduleOk(s, now);
    var s' := Schedule(s, now);
    IdleStays(s, now);
    forall t | Lost(s', t) ensures SelfReady(s) {
      ScheduleStatus(s, now, t);
      assert !Lost(s, t);
    }
    if SelfReady(s) {
      ScheduleStatus(s, now, s.current);
      assert Lost(s', s.current);
    }
  }

  lemma IdleStays(s: State, now: nat)
    requires Ok(s)
    ensures Schedule(s, now).idle == s.idle
  {
    PreparedOk(s, now);
    var s1 := Boosted(Yielded(s), now);
    var l := FirstLevel(s1.levels);
    if l < LEVELS { PopOk(s1, l); }
  }

  /** The other operations lose only a thread that is dequeued on purpose. */
  lemma StepLosesExact(s: State, op: Op)
    requires Ok(s) && Enabled(s, op) && NobodyLost(s)
    ensures NobodyLost(Step(s, op)) <==> Careful(s, op)
  {
    match op
    case DoSchedule(now) => ScheduleLosesExact(s, now);
    case Dequeue(u) => DequeueLoses(s, u);
    case Enqueue(u) => PushLoses(s, u);
    case Wake(u) =>
      if Asleep(s.threads[u]) {
        forall l | 0 <= l < LEVELS ensures u !in s.levels[l] { assert QueueOk(s.threads, s.levels[l], l); }
        PushLoses(s, u);
      }
    case BlockCurrent => CurrentKeeps(s, s.threads[s.current].(status := Blocked));
    case ExitCurrent => CurrentKeeps(s, s.threads[s.current].(status := Zombie));
    case Demote =>
      var th := s.threads[s.current];
      if th.level < LEVELS - 1 { CurrentKeeps(s, th.(level := th.level + 1)); }
  }

  lemma PushLoses(s: State, u: nat)
    requires Ok(s) && NobodyLost(s) && u in s.threads && !Queued(s, u)
    ensures NobodyLost(Pushed(s, u))
  {
    PushOk(s, u);
    var s' := Pushed(s, u);
    forall t ensures !Lost(s', t) {
      assert !Lost(s, t) && (Queued(s', t) <==> Queued(s, t) || t == u);
    }
  }

  lemma CurrentKeeps(s: State, th: Thread)
    requires Ok(s) && NobodyLost(s)
    ensures NobodyLost(s.(threads := s.threads[s.current := th]))
  {
    var s' := s.(threads := s.threads[s.current := th]);
    forall t ensures !Lost(s', t) {
      assert !Lost(s, t) && (Queued(s', t) <==> Queued(s, t));
    }
  }

  lemma DequeueLoses(s: State, u: nat)
    requires Ok(s) && NobodyLost(s) && Queued(s, u)
    ensures u in s.threads && (NobodyLost(Removed(s, u)) <==> u == s.idle)
  {
    RemoveOk(s, u);
    var s' := Removed(s, u);
    var k :| 0 <= k < LEVELS && u in s.levels[k];
    assert QueueOk(s.threads, s.levels[k], k);
    assert u != s.current;
    forall t ensures Lost(s', t) <==> t == u && u != s.idle {
      assert !Lost(s, t) && (Queued(s', t) <==> Queued(s, t) && t != u);
    }
    assert Lost(s', u) <==> u != s.idle;
  }

  /** What must not be done if nobody is to be lost. */
  predicate Careful(s: State, op: Op) {
    match op
    case DoSchedule(_) => !SelfReady(s)
    case Dequeue(t) => t == s.idle
    case _ => true
  }

  ghost predicate NeverLost(s: State, ops: seq<Op>)
    requires Ok(s) && RunEnabled(s, ops)
    decreases |ops|
  {
    NobodyLost(s) && (ops == [] || (StepOk(s, ops[0]); NeverLost(Step(s, ops[0]), ops[1..])))
  }

  predicate CarefulRun(s: State, ops: seq<Op>)
    requires Ok(s) && RunEnabled(s, ops)
    decreases |ops|
  {
    ops == [] || (Careful(s, ops[0]) && (StepOk(s, ops[0]); CarefulRun(Step(s, ops[0]), ops[1..])))
  }

  /** A run loses nobody at any point exactly when no thread is dequeued and no thread that has picked itself calls
      schedule before it has blocked. */
  lemma {:induction false} RunLosesExact(s: State, ops: seq<Op>)
    requires Ok(s) && RunEnabled(s, ops) && NobodyLost(s)
    ensures NeverLost(s, ops) <==> CarefulRun(s, ops)
    decreases |ops|
  {
    if ops != [] {
      StepOk(s, ops[0]);
      StepLosesExact(s, ops[0]);
      var s' := Step(s, ops[0]);
      if Careful(s, ops[0]) {
        RunLosesExact(s', ops[1..]);
      }
    }
  }

  // ---- when a thread picks itself

  /** Who is picked from the queues; 0 if they are empty. */
  function Pick(levels: seq<seq<nat>>): nat {
    var l := FirstLevel(levels); if l == |levels| then 0 else levels[l][0]
  }

  lemma {:induction false} FlatHead(levels: seq<seq<nat>>)
    ensures FirstLevel(levels) == |levels| ==> Flat(levels) == []
    ensures FirstLevel(levels) < |levels| ==> Flat(levels) != [] && Flat(levels)[0] == levels[FirstLevel(levels)][0]
  {
    if levels != [] && levels[0] == [] {
      FlatHead(levels[1..]);
      assert [] + Flat(levels[1..]) == Flat(levels[1..]);
    }
  }

  /** A boost changes nothing about who is next. */
  lemma BoostKeepsPick(s: State, now: nat)
    requires |s.levels| == LEVELS
    ensures |Boosted(s, now).levels| == LEVELS && Pick(Boosted(s, now).levels) == Pick(s.levels)
  {
    if BoostDue(s, now) {
      FlatHead(s.levels);
      var all := [Flat(s.levels)] + Emptied();
      var l := FirstLevel(all);
      assert forall m :: 0 < m < LEVELS ==> all[m] == [];
      if Flat(s.levels) == [] {
        assert forall m :: 0 <= m < LEVELS ==> all[m] == [];
      } else {
        assert l == 0;
      }
    }
  }

  /** schedule dispatches the first thread of the first queue that has one, after the current thread has gone to the
      end of its own. */
  lemma SchedulePicks(s: State, now: nat)
    requires Ok(s)
    ensures s.current in s.threads && s.threads[s.current].level < |s.levels| == LEVELS
    ensures var p := Pick(Yielded(s).levels); Schedule(s, now).current == if p == 0 then s.idle else p
    ensures Schedule(s, now).current == s.current ==>
      Schedule(s, now).threads[s.current].status
        == (if s.threads[s.current].status == Running then Ready else s.threads[s.current].status)
    ensures Schedule(s, now).current != s.current ==>
      Schedule(s, now).threads[Schedule(s, now).current].status == Running
  {
    PreparedOk(s, now);
    var s0 := Yielded(s);
    var s1 := Boosted(s0, now);
    BoostKeepsPick(s0, now);
    var l := FirstLevel(s1.levels);
    if l < LEVELS {
      PopOk(s1, l);
      assert QueueOk(s1.threads, s1.levels[l], l) && s1.levels[l][0] in s1.levels[l];
    }
  }

  /** The current thread picks itself and stays marked as ready exactly when it is running and no queue up to its own
      level has a thread, or it is the idle thread, is marked as ready already and all queues are empty. */
  lemma SelfPickExact(s: State, now: nat)
    requires Ok(s)
    ensures s.current in s.threads && |s.levels| == LEVELS && s.threads[s.current].level < LEVELS
    ensures var s', th := Schedule(s, now), s.threads[s.current];
      (s'.current == s.current && s.current in s'.threads && s'.threads[s.current].status == Ready) <==>
      if th.status == Running then forall m :: 0 <= m <= th.level ==> s.levels[m] == []
      else th.status == Ready && s.current == s.idle && forall m :: 0 <= m < LEVELS ==> s.levels[m] == []
  {
    hide Schedule;
    ScheduleOk(s, now);
    SchedulePicks(s, now);
    var s0, th := Yielded(s), s.threads[s.current];
    var l := FirstLevel(s0.levels);
    if th.status == Running {
      assert s0.levels[th.level] == s.levels[th.level] + [s.current];
      assert forall m :: 0 <= m < LEVELS && m != th.level ==> s0.levels[m] == s.levels[m];
      assert l <= th.level;
      PushOk(s, s.current);
      if l < th.level {
        assert s.levels[l] != [] && s0.levels[l][0] in s.levels[l];
        assert !Queued(s, s.current);
      } else if s.levels[l] != [] {
        assert s0.levels[l][0] == s.levels[l][0] && s.levels[l][0] in s.levels[l];
        assert !Queued(s, s.current);
      }
    } else if l < LEVELS {
      assert s.levels[l][0] in s.levels[l] && Queued(s, s.levels[l][0]);
      assert QueueOk(s.threads, s.levels[l], l);
    }
  }

  // ---- a run that loses a thread

  /** What runqueue_init_one leaves, with one thread that has been created. */
  function Booted(t: nat, idle: nat): State {
    State([[]] + Emptied(), idle, idle, map[idle := Thread(Running, 0), t := Thread(New, 0)], 0)
  }

  lemma BootedOk(t: nat, idle: nat)
    requires 0 < t && 0 < idle && t != idle
    ensures Ok(Booted(t, idle)) && Idling(Booted(t, idle)) && NobodyLost(Booted(t, idle))
  {
    var s := Booted(t, idle);
    assert forall l :: 0 <= l < LEVELS ==> s.levels[l] == [];
    assert forall u :: !Lost(s, u);
  }

  /** Nobody is in any queue. */
  ghost predicate Idling(s: State) {
    forall u :: !Queued(s, u)
  }

  lemma IdlingIsEmpty(s: State, l: nat)
    requires Idling(s) && l < |s.levels|
    ensures s.levels[l] == []
  {
    if s.levels[l] != [] {
      assert s.levels[l][0] in s.levels[l];
      assert Queued(s, s.levels[l][0]);
    }
  }

  /** With empty queues a running thread picks itself and is then marked as ready, with the queues empty as before. */
  lemma PicksItself(s: State, now: nat)
    requires Ok(s) && Idling(s) && s.threads[s.current].status == Running
    ensures var s' := Schedule(s, now);
      && Ok(s') && Idling(s') && s'.current == s.current && s'.idle == s.idle && s'.threads.Keys == s.threads.Keys
      && s'.threads[s.current].status == Ready
  {
    hide Schedule, QueuesOk, Queued;
    ScheduleOk(s, now);
    SelfPickExact(s, now);
    IdleStays(s, now);
    forall m | 0 <= m <= s.threads[s.current].level ensures s.levels[m] == [] { IdlingIsEmpty(s, m); }
  }

  /** The only queued thread is dispatched when the current one does not go back. */
  lemma PicksTheOther(s: State, now: nat, t: nat)
    requires Ok(s) && (forall u :: Queued(s, u) <==> u == t) && s.threads[s.current].status == Ready
    ensures var s' := Schedule(s, now);
      && Ok(s') && Idling(s') && s'.current == t && s'.idle == s.idle && s'.threads.Keys == s.threads.Keys
      && t in s'.threads && s'.threads[t].status == Running
  {
    assert Queued(s, t);
    hide Schedule, QueuesOk;
    ScheduleOk(s, now);
    SchedulePicks(s, now);
    IdleStays(s, now);
    var l := FirstLevel(s.levels);
    var k := Level(s, t);
    assert t in s.levels[k];
    assert Queued(s, s.levels[l][0]) by { assert s.levels[l][0] in s.levels[l]; }
    NotNull(s, t);
    assert Schedule(s, now).current == t;
  }

  lemma NotNull(s: State, t: nat)
    requires Ok(s) && Queued(s, t)
    ensures t != 0 && t != s.current && t in s.threads
  {
    var l :| 0 <= l < |s.levels| && t in s.levels[l];
    assert QueueOk(s.threads, s.levels[l], l);
  }

  lemma Level(s: State, t: nat) returns (l: nat)
    requires Queued(s, t)
    ensures l < |s.levels| && t in s.levels[l]
  {
    l :| 0 <= l < |s.levels| && t in s.levels[l];
  }

  lemma RunCons(s: State, op: Op, rest: seq<Op>)
    requires Ok(s) && Enabled(s, op) && Ok(Step(s, op)) && RunEnabled(Step(s, op), rest)
    ensures RunEnabled(s, [op] + rest) && Run(s, [op] + rest) == Run(Step(s, op), rest)
  {
    var ops := [op] + rest;
    assert ops[0] == op && ops[1..] == rest;
  }

  /** The idle thread schedules, `t` is enqueued, and the CPU schedules three times more: `t` is dispatched, picks
      itself, and is lost. Nobody was lost before. */
  lemma SelfPickedIsLost(t: nat, idle: nat, n1: nat, n2: nat, n3: nat, n4: nat)
    requires 0 < t && 0 < idle && t != idle && n1 > 0
    ensures var s, ops := Booted(t, idle),
      [DoSchedule(n1)] + ([Enqueue(t)] + ([DoSchedule(n2)] + ([DoSchedule(n3)] + [])));
      && Ok(s) && NobodyLost(s) && RunEnabled(s, ops) && NobodyLost(Run(s, ops)) && Ok(Run(s, ops))
      && Lost(Step(Run(s, ops), DoSchedule(n4)), t)
  {
    hide Schedule, QueuesOk, Queued, Pushed, Lost;
    var s := Booted(t, idle);
    BootedOk(t, idle);
    PicksItself(s, n1);
    ScheduleLosesExact(s, n1);
    var s1 := Schedule(s, n1);
    PushOk(s1, t);
    PushLoses(s1, t);
    StepOk(s1, Enqueue(t));
    PushedFacts(s1, t);
    var s2 := Pushed(s1, t);
    PicksTheOther(s2, n2, t);
    ScheduleLosesExact(s2, n2);
    var s3 := Schedule(s2, n2);
    PicksItself(s3, n3);
    ScheduleLosesExact(s3, n3);
    var s4 := Schedule(s3, n3);
    LastSchedule(s4, n4);
    RunCons(s3, DoSchedule(n3), []);
    RunCons(s2, DoSchedule(n2), [DoSchedule(n3)] + []);
    RunCons(s1, Enqueue(t), [DoSchedule(n2)] + ([DoSchedule(n3)] + []));
    RunCons(s, DoSchedule(n1), [Enqueue(t)] + ([DoSchedule(n2)] + ([DoSchedule(n3)] + [])));
  }

  lemma PushedFacts(s: State, t: nat)
    requires Ok(s) && t in s.threads && t != s.current
    ensures s.threads[t].level < |s.levels|
    ensures var s' := Pushed(s, t); s'.current == s.current && s'.idle == s.idle && s'.threads.Keys == s.threads.Keys
    ensures Pushed(s, t).threads[s.current] == s.threads[s.current]
  {
  }

  /** A thread that has picked itself and schedules again is lost. */
  lemma LastSchedule(s: State, now: nat)
    requires Ok(s) && SelfReady(s)
    ensures Lost(Schedule(s, now), s.current)
  {
    hide Schedule, QueuesOk, Queued;
    ScheduleOk(s, now);
    IdleStays(s, now);
    ScheduleStatus(s, now, s.current);
  }
}
