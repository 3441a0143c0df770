/** The run queue of kernel/src/sched/sched.c where it is kept: eight doubly linked queues threaded through the threads.
    Every operation refines its counterpart in SchedStates. */
module Sched {
  import opened Seqs
  import opened Words
  import opened SchedStates

  datatype Queue = Queue(head: nat, tail: nat, count: nat)

  /** The queue links of a thread. */
  datatype Link = Link(next: nat, prev: nat)

  ghost predicate ThreadLinked(links: map<nat, Link>, l: seq<nat>, i: nat)
    requires i < |l|
  {
    l[i] != 0 && l[i] in links && links[l[i]] == Link(At(l, i + 1), At(l, i - 1))
  }

  ghost predicate ChainOk(links: map<nat, Link>, q: Queue, l: seq<nat>) {
    && q == Queue(At(l, 0), At(l, |l| - 1), |l|) && NoDuplicates(l)
    && (forall i :: 0 <= i < |l| ==> ThreadLinked(links, l, i))
  }

  ghost predicate Disjoint(lists: seq<seq<nat>>) {
    forall k, m, t :: 0 <= k < |lists| && 0 <= m < |lists| && k != m && t in lists[k] ==> t !in lists[m]
  }

  ghost predicate Woven(links: map<nat, Link>, levels: seq<Queue>, lists: seq<seq<nat>>) {
    |levels| == LEVELS && |lists| == LEVELS && Disjoint(lists)
    && forall k :: 0 <= k < LEVELS ==> ChainOk(links, levels[k], lists[k])
  }

  predicate In(lists: seq<seq<nat>>, t: nat) {
    exists l :: 0 <= l < |lists| && t in lists[l]
  }

  /** A queue does not notice links of other threads changing. */
  lemma ChainFrame(links: map<nat, Link>, links': map<nat, Link>, q: Queue, l: seq<nat>)
    requires ChainOk(links, q, l) && forall t :: t in l && t in links ==> t in links' && links'[t] == links[t]
    ensures ChainOk(links', q, l)
  {
    forall i | 0 <= i < |l| ensures ThreadLinked(links', l, i) {
      assert ThreadLinked(links, l, i) && l[i] in l;
    }
  }

  // ---- push

  function PushLinks(links: map<nat, Link>, q: Queue, t: nat): map<nat, Link> {
    var links1 := links[t := Link(0, q.tail)];
    if q.tail != 0 && q.tail in links1 then links1[q.tail := links1[q.tail].(next := t)] else links1
  }

  lemma PushChain(links: map<nat, Link>, q: Queue, l: seq<nat>, t: nat)
    requires ChainOk(links, q, l) && t != 0 && t !in l
    ensures ChainOk(PushLinks(links, q, t), Queue(if q.tail == 0 then t else q.head, t, q.count + 1), l + [t])
  {
    var links', l' := PushLinks(links, q, t), l + [t];
    if l != [] { assert ThreadLinked(links, l, |l| - 1) && l[|l| - 1] in l; }
    forall i | 0 <= i < |l'| ensures ThreadLinked(links', l', i) {
      if i < |l| { assert ThreadLinked(links, l, i) && l[i] in l; }
    }
  }

  lemma PushWoven(links: map<nat, Link>, levels: seq<Queue>, lists: seq<seq<nat>>, k: nat, t: nat)
    requires Woven(links, levels, lists) && k < LEVELS && t != 0 && !In(lists, t)
    ensures var q := levels[k];
      Woven(PushLinks(links, q, t), levels[k := Queue(if q.tail == 0 then t else q.head, t, q.count + 1)],
                                      lists[k := lists[k] + [t]])
  {
    var q := levels[k];
    var links', lists' := PushLinks(links, q, t), lists[k := lists[k] + [t]];
    assert ChainOk(links, q, lists[k]) && t !in lists[k];
    PushChain(links, q, lists[k], t);
    assert q.tail != 0 ==> q.tail in lists[k];
    forall m | 0 <= m < LEVELS && m != k ensures ChainOk(links', levels[m], lists[m]) {
      assert ChainOk(links, levels[m], lists[m]) && t !in lists[m];
      ChainFrame(links, links', levels[m], lists[m]);
    }
    forall a, b, u | 0 <= a < LEVELS && 0 <= b < LEVELS && a != b && u in lists'[a] ensures u !in lists'[b] {
      assert t !in lists[a] && t !in lists[b];
    }
  }

  // ---- removal from anywhere

  /** The stores of mlfq_remove (and of mlfq_pop, for the head). */
  function CutLinks(links: map<nat, Link>, t: nat): map<nat, Link>
    requires t in links
  {
    var n, p := links[t].next, links[t].prev;
    var links1 := if p != 0 && p in links then links[p := links[p].(next := n)] else links;
    var links2 := if n != 0 && n in links1 then links1[n := links1[n].(prev := p)] else links1;
    links2[t := Link(0, 0)]
  }

  function CutQueue(q: Queue, links: map<nat, Link>, t: nat): Queue
    requires t in links && q.count > 0
  {
    var n, p := links[t].next, links[t].prev;
    Queue(if p == 0 && q.head == t then n else q.head, if n == 0 && q.tail == t then p else q.tail, q.count - 1)
  }

  lemma CutChain(links: map<nat, Link>, q: Queue, l: seq<nat>, i: nat)
    requires ChainOk(links, q, l) && i < |l|
    ensures l[i] in links && q.count > 0
    ensures ChainOk(CutLinks(links, l[i]), CutQueue(q, links, l[i]), l[..i] + l[i+1..])
  {
    var t := l[i];
    assert ThreadLinked(links, l, i);
    var links', l' := CutLinks(links, t), l[..i] + l[i+1..];
    assert i > 0 ==> ThreadLinked(links, l, i - 1);
    assert i + 1 < |l| ==> ThreadLinked(links, l, i + 1);
    forall j | 0 <= j < |l'| ensures ThreadLinked(links', l', j) {
      CutLink(links, q, l, i, j);
    }
  }

  lemma CutLink(links: map<nat, Link>, q: Queue, l: seq<nat>, i: nat, j: nat)
    requires ChainOk(links, q, l) && i < |l| && j < |l| - 1
    ensures l[i] in links && ThreadLinked(CutLinks(links, l[i]), l[..i] + l[i+1..], j)
  {
    var t, m := l[i], if j < i then j else j + 1;
    var l' := l[..i] + l[i+1..];
    assert ThreadLinked(links, l, i) && ThreadLinked(links, l, m);
    assert i > 0 ==> ThreadLinked(links, l, i - 1);
    assert i + 1 < |l| ==> ThreadLinked(links, l, i + 1);
    assert l'[j] == l[m] && l[m] != t;
    assert m + 1 != i && i > 0 ==> l[m] != l[i-1];
    assert m != i + 1 && i + 1 < |l| ==> l[m] != l[i+1];
  }

  lemma CutWoven(links: map<nat, Link>, levels: seq<Queue>, lists: seq<seq<nat>>, k: nat, i: nat)
    requires Woven(links, levels, lists) && k < LEVELS && i < |lists[k]|
    ensures lists[k][i] in links && levels[k].count > 0
    ensures Woven(CutLinks(links, lists[k][i]), levels[k := CutQueue(levels[k], links, lists[k][i])],
                  lists[k := lists[k][..i] + lists[k][i+1..]])
  {
    var t, l := lists[k][i], lists[k];
    assert ChainOk(links, levels[k], l);
    CutChain(links, levels[k], l, i);
    assert ThreadLinked(links, l, i);
    var links', lists' := CutLinks(links, t), lists[k := l[..i] + l[i+1..]];
    assert t in l && (links[t].next != 0 ==> links[t].next in l) && (links[t].prev != 0 ==> links[t].prev in l);
    forall m | 0 <= m < LEVELS && m != k ensures ChainOk(links', levels[m], lists[m]) {
      assert ChainOk(links, levels[m], lists[m]);
      ChainFrame(links, links', levels[m], lists[m]);
    }
    forall a, b, u | 0 <= a < LEVELS && 0 <= b < LEVELS && a != b && u in lists'[a] ensures u !in lists'[b] {
      assert u in lists[a];
    }
  }

  // ---- counting

  lemma {:induction false} FlatLength(lists: seq<seq<nat>>, k: nat, l: seq<nat>)
    requires k < |lists|
    ensures |Flat(lists[k := l])| == |Flat(lists)| + |l| - |lists[k]|
  {
    if k > 0 {
      FlatLength(lists[1..], k - 1, l);
      assert lists[k := l][1..] == lists[1..][k - 1 := l];
    } else {
      assert lists[k := l][1..] == lists[1..];
    }
  }

  lemma {:induction false} FlatExtend(lists: seq<seq<nat>>, k: nat)
    requires k < |lists|
    ensures Flat(lists[..k+1]) == Flat(lists[..k]) + lists[k]
  {
    if k == 0 {
      var one: seq<seq<nat>> := [lists[0]];
      assert lists[..1] == one && one[1..] == [] && lists[..0] == [];
      assert Flat(one) == lists[0] + Flat(one[1..]);
    } else {
      FlatExtend(lists[1..], k - 1);
      assert lists[..k+1][1..] == lists[1..][..k] && lists[..k][1..] == lists[1..][..k-1];
    }
  }

  lemma FlatOne(l: seq<nat>)
    ensures Flat([l] + Emptied()) == l
  {
    var e := Emptied();
    assert Flat(e[7..]) == [];
    assert Flat(e[6..]) == e[6] + Flat(e[7..]) by { assert e[6..][1..] == e[7..]; }
    assert Flat(e[5..]) == e[5] + Flat(e[6..]) by { assert e[5..][1..] == e[6..]; }
    assert Flat(e[4..]) == e[4] + Flat(e[5..]) by { assert e[4..][1..] == e[5..]; }
    assert Flat(e[3..]) == e[3] + Flat(e[4..]) by { assert e[3..][1..] == e[4..]; }
    assert Flat(e[2..]) == e[2] + Flat(e[3..]) by { assert e[2..][1..] == e[3..]; }
    assert Flat(e[1..]) == e[1] + Flat(e[2..]) by { assert e[1..][1..] == e[2..]; }
    assert Flat(e) == e[0] + Flat(e[1..]);
    assert ([l] + e)[1..] == e;
  }

  function Raised(threads: map<nat, Thread>, ts: seq<nat>): map<nat, Thread> {
    map t | t in threads :: if t in ts then threads[t].(level := 0) else threads[t]
  }

  lemma RaisedNone(threads: map<nat, Thread>, q: seq<nat>)
    ensures Raised(threads, q[..0]) == threads
  {
  }

  lemma RaisedNext(threads: map<nat, Thread>, q: seq<nat>, j: nat)
    requires j < |q| && q[j] in threads
    ensures var r := Raised(threads, q[..j]); q[j] in r && Raised(threads, q[..j+1]) == r[q[j] := r[q[j]].(level := 0)]
  {
    assert forall t :: t in q[..j+1] <==> t in q[..j] || t == q[j];
  }

  lemma WovenFacts(links: map<nat, Link>, levels: seq<Queue>, lists: seq<seq<nat>>, k: nat)
    requires Woven(links, levels, lists) && k < LEVELS
    ensures Disjoint(lists) && NoDuplicates(lists[k]) && 0 !in lists[k]
  {
    assert ChainOk(links, levels[k], lists[k]);
    forall i | 0 <= i < |lists[k]| ensures lists[k][i] != 0 { assert ThreadLinked(links, lists[k], i); }
  }

  /** The queues when `j` threads of queue `lvl` have gone to the end of queue 0. */
  function Moving(l0: seq<seq<nat>>, lvl: nat, j: nat): seq<seq<nat>>
    requires 0 < lvl < |l0| && j <= |l0[lvl]|
  {
    l0[0 := l0[0] + l0[lvl][..j]][lvl := l0[lvl][j..]]
  }

  lemma MovingStart(l0: seq<seq<nat>>, lvl: nat)
    requires 0 < lvl < |l0|
    ensures Moving(l0, lvl, 0) == l0
  {
    var l := Moving(l0, lvl, 0);
    assert l0[0] + l0[lvl][..0] == l0[0] && l0[lvl][0..] == l0[lvl];
    assert forall m :: 0 <= m < |l| ==> l[m] == l0[m];
  }

  lemma MovingStep(l0: seq<seq<nat>>, lvl: nat, j: nat)
    requires Disjoint(l0) && 0 < lvl < |l0| && NoDuplicates(l0[lvl]) && j < |l0[lvl]|
    ensures var popped := Moving(l0, lvl, j)[lvl := Moving(l0, lvl, j)[lvl][1..]];
      !In(popped, l0[lvl][j]) && popped[0 := popped[0] + [l0[lvl][j]]] == Moving(l0, lvl, j + 1)
  {
    var q, l := l0[lvl], Moving(l0, lvl, j);
    var popped := l[lvl := l[lvl][1..]];
    assert q[j..][1..] == q[j+1..] && q[..j] + [q[j]] == q[..j+1];
    assert q[j] in l0[lvl];
    forall m | 0 <= m < |popped| ensures q[j] !in popped[m] {
      if m != lvl { assert q[j] !in l0[m]; }
    }
    var pushed, l' := popped[0 := popped[0] + [q[j]]], Moving(l0, lvl, j + 1);
    assert l0[0] + q[..j] + [q[j]] == l0[0] + q[..j+1];
    assert forall m :: 0 <= m < |pushed| ==> pushed[m] == l'[m];
  }

  /** The queues when those below `n` have been emptied into the topmost one. */
  ghost predicate Drained(l0: seq<seq<nat>>, lists: seq<seq<nat>>, n: nat) {
    |l0| == LEVELS && |lists| == LEVELS && 0 < n <= LEVELS && lists[0] == Flat(l0[..n])
    && (forall m :: 0 < m < n ==> lists[m] == []) && (forall m :: n <= m < LEVELS ==> lists[m] == l0[m])
  }

  lemma DrainStart(s: State)
    requires QueuesOk(s)
    ensures Drained(s.levels, s.levels, 1) && Raised(s.threads, Flat(s.levels[..1])) == s.threads
  {
    FlatExtend(s.levels, 0);
    assert s.levels[..0] == [] && Flat(s.levels[..1]) == s.levels[0];
    assert QueueOk(s.threads, s.levels[0], 0);
  }

  lemma DrainStep(l0: seq<seq<nat>>, lists: seq<seq<nat>>, n: nat, threads: map<nat, Thread>)
    requires Drained(l0, lists, n) && n < LEVELS
    ensures Drained(l0, lists[0 := lists[0] + lists[n]][n := []], n + 1)
    ensures Raised(Raised(threads, Flat(l0[..n])), lists[n]) == Raised(threads, Flat(l0[..n+1]))
  {
    FlatExtend(l0, n);
    var a, b := Flat(l0[..n]), l0[n];
    assert forall t :: t in a + b <==> t in a || t in b;
  }

  lemma DrainEnd(s: State, lists: seq<seq<nat>>, now: nat)
    requires QueuesOk(s) && Drained(s.levels, lists, LEVELS) && BoostDue(s, now)
    ensures State(lists, s.current, s.idle, Raised(s.threads, Flat(s.levels)), now) == Boosted(s, now)
    ensures Flat(lists) == Flat(s.levels) && s.levels[..LEVELS] == s.levels
  {
    assert s.levels[..LEVELS] == s.levels;
    var all := [Flat(s.levels)] + Emptied();
    assert forall m :: 0 <= m < LEVELS ==> lists[m] == all[m];
    assert lists == all;
    FlatOne(Flat(s.levels));
    forall t ensures t in Flat(s.levels) <==> Queued(s, t) { FlatMembers(s.levels, t); }
  }

  lemma EmptyOk(idle: nat, threads: map<nat, Thread>)
    requires idle in threads && 0 !in threads && forall t :: t in threads ==> threads[t].level < LEVELS
    ensures Woven(map[], seq(8, k => Queue(0, 0, 0)), [[]] + Emptied())
      && Ok(State([[]] + Emptied(), idle, idle, threads, 0))
  {
    var lists: seq<seq<nat>> := [[]] + Emptied();
    assert forall k :: 0 <= k < 8 ==> lists[k] == [];
    assert forall k :: 0 <= k < 8 ==> ChainOk(map[], Queue(0, 0, 0), lists[k]);
  }

  class RunQueue {
    var links: map<nat, Link>
    var levels: seq<Queue>
    var nrRunning: nat
    var current: nat
    const idle: nat
    var threads: map<nat, Thread>
    var lastBoost: nat
    ghost var lists: seq<seq<nat>>

    ghost function Abs(): State
      reads this
    {
      State(lists, current, idle, threads, lastBoost)
    }

    ghost predicate Valid()
      reads this
    {
      Woven(links, levels, lists) && Ok(Abs()) && nrRunning == |Flat(lists)|
    }

    /** runqueue_init_one: empty queues, and the idle thread on the CPU. */
    constructor (idle: nat, threads: map<nat, Thread>)
      requires idle in threads && 0 !in threads && forall t :: t in threads ==> threads[t].level < LEVELS
      ensures Valid() && Abs() == State([[]] + Emptied(), idle, idle,
        threads[idle := threads[idle].(status := Running)], 0)
    {
      this.idle, current := idle, idle;
      this.threads := threads[idle := threads[idle].(status := Running)];
      links, nrRunning, lastBoost := map[], 0, 0;
      levels := seq(8, k => Queue(0, 0, 0));
      lists := [[]] + Emptied();
      new;
      hide Woven, Ok, Flat;
      FlatOne([]);
      EmptyOk(idle, this.threads);
    }

    method MlfqPush(k: nat, t: nat)
      requires Woven(links, levels, lists) && k < LEVELS && t != 0 && !In(lists, t)
      modifies this`links, this`levels, this`lists
      ensures Woven(links, levels, lists) && lists == old(lists)[k := old(lists)[k] + [t]]
    {
      hide Disjoint, ChainOk;
      PushWoven(links, levels, lists, k, t);
      TailIsThere(k);
      var q := levels[k];
      links := links[t := Link(0, q.tail)];
      if q.tail != 0 {
        links := links[q.tail := links[q.tail].(next := t)];
      } else {
        q := q.(head := t);
      }
      levels := levels[k := q.(tail := t, count := q.count + 1)];
      lists := lists[k := lists[k] + [t]];
    }

    lemma TailIsThere(k: nat)
      requires Woven(links, levels, lists) && k < LEVELS
      ensures levels[k].tail != 0 ==> levels[k].tail in links && levels[k].tail in lists[k]
      ensures levels[k].head == At(lists[k], 0) && levels[k].count == |lists[k]|
        && (levels[k].head == 0 <==> lists[k] == [])
    {
      var l := lists[k];
      assert ChainOk(links, levels[k], l);
      if l != [] { assert ThreadLinked(links, l, |l| - 1) && ThreadLinked(links, l, 0); }
    }

    /** The head of a queue; 0 if it is empty. */
    method MlfqPop(k: nat) returns (t: nat)
      requires Woven(links, levels, lists) && k < LEVELS
      modifies this`links, this`levels, this`lists
      ensures Woven(links, levels, lists) && t == At(old(lists)[k], 0) && (t == 0 <==> old(lists)[k] == [])
      ensures lists == if t == 0 then old(lists) else old(lists)[k := old(lists)[k][1..]]
    {
      hide Disjoint, ChainOk;
      TailIsThere(k);
      t := levels[k].head;
      if t == 0 {
        return;
      }
      CutWoven(links, levels, lists, k, 0);
      HeadLink(k);
      var next := links[t].next;
      var q := levels[k].(head := next);
      if next != 0 {
        links := links[next := links[next].(prev := 0)];
      } else {
        q := q.(tail := 0);
      }
      links := links[t := Link(0, 0)];
      levels := levels[k := q.(count := q.count - 1)];
      assert lists[k][..0] + lists[k][1..] == lists[k][1..];
      lists := lists[k := lists[k][1..]];
    }

    lemma HeadLink(k: nat)
      requires Woven(links, levels, lists) && k < LEVELS && lists[k] != []
      ensures var t := lists[k][0];
        t in links && links[t].prev == 0 && (links[t].next != 0 ==> links[t].next in links && links[t].next != t)
      ensures var t := lists[k][0]; links[t].next == 0 ==> levels[k].tail == t
      ensures var t := lists[k][0]; links[t].next != 0 ==> levels[k].tail != t
    {
      var l := lists[k];
      assert ChainOk(links, levels[k], l) && ThreadLinked(links, l, 0);
      assert |l| > 1 ==> ThreadLinked(links, l, 1) && l[0] != l[1] && l[0] != l[|l| - 1];
    }

    /** Takes a thread out of the middle of its queue. */
    method MlfqRemove(k: nat, t: nat, ghost i: nat)
      requires Woven(links, levels, lists) && k < LEVELS && i < |lists[k]| && lists[k][i] == t
      modifies this`links, this`levels, this`lists
      ensures Woven(links, levels, lists) && lists == old(lists)[k := old(lists)[k][..i] + old(lists)[k][i+1..]]
    {
      hide Disjoint, ChainOk;
      CutWoven(links, levels, lists, k, i);
      InnerLink(k, i);
      ghost var links0, q0 := links, levels[k];
      var q, n, p := levels[k], links[t].next, links[t].prev;
      if p != 0 {
        links := links[p := links[p].(next := n)];
      } else if q.head == t {
        q := q.(head := n);
      }
      if n != 0 {
        links := links[n := links[n].(prev := p)];
      } else if q.tail == t {
        q := q.(tail := p);
      }
      links := links[t := Link(0, 0)];
      q := q.(count := q.count - 1);
      assert links == CutLinks(links0, t) && q == CutQueue(q0, links0, t);
      levels := levels[k := q];
      lists := lists[k := lists[k][..i] + lists[k][i+1..]];
    }

    lemma InnerLink(k: nat, i: nat)
      requires Woven(links, levels, lists) && k < LEVELS && i < |lists[k]|
      ensures var t := lists[k][i];
        t in links && (links[t].prev != 0 ==> links[t].prev in links) && (links[t].next != 0 ==> links[t].next in links)
    {
      var l := lists[k];
      assert ChainOk(links, levels[k], l) && ThreadLinked(links, l, i);
      assert i > 0 ==> ThreadLinked(links, l, i - 1);
      assert i + 1 < |l| ==> ThreadLinked(links, l, i + 1);
    }

    /** mlfq_pick_next: the head of the first queue that has one. */
    method PickNext() returns (t: nat)
      requires Woven(links, levels, lists)
      modifies this`links, this`levels, this`lists
      ensures Woven(links, levels, lists)
      ensures var l := FirstLevel(old(lists));
        if l == LEVELS then t == 0 && lists == old(lists)
        else t != 0 && t == old(lists)[l][0] && lists == old(lists)[l := old(lists)[l][1..]]
    {
      hide Disjoint, ChainOk;
      var lvl := 0;
      while lvl < LEVELS
        invariant lvl <= LEVELS && Woven(links, levels, lists) && lists == old(lists) && forall m :: 0 <= m < lvl ==>
          lists[m] == []
      {
        TailIsThere(lvl);
        if levels[lvl].count > 0 {
          FirstLevelIs(lists, lvl);
          t := MlfqPop(lvl);
          return;
        }
        lvl := lvl + 1;
      }
      FirstLevelIs(lists, LEVELS);
      t := 0;
    }

    /** The inner loop of maybe_boost: one queue goes to the end of the topmost one. */
    method EmptyInto(lvl: nat)
      requires Woven(links, levels, lists) && 0 < lvl < LEVELS && forall t :: t in lists[lvl] ==> t in threads
      modifies this`links, this`levels, this`lists, this`threads
      ensures Woven(links, levels, lists) && lists == old(lists)[0 := old(lists)[0] + old(lists)[lvl]][lvl := []]
      ensures threads == Raised(old(threads), old(lists)[lvl])
    {
      hide Disjoint, ChainOk, Raised;
      ghost var l0, q, j := lists, lists[lvl], 0;
      WovenFacts(links, levels, lists, lvl);
      RaisedNone(threads, q);
      MovingStart(l0, lvl);
      while true
        invariant Woven(links, levels, lists) && j <= |q| && lists == Moving(l0, lvl, j)
        invariant threads == Raised(old(threads), q[..j])
        decreases |q| - j
      {
        var t := MlfqPop(lvl);
        if t == 0 {
          assert q[..j] == q;
          break;
        }
        assert t == q[j] && q[j] in q;
        RaisedNext(old(threads), q, j);
        threads := threads[t := threads[t].(level := 0)];
        MovingStep(l0, lvl, j);
        MlfqPush(0, t);
        j := j + 1;
      }
    }

    /** maybe_boost */
    method MaybeBoost(now: nat)
      requires Woven(links, levels, lists) && QueuesOk(Abs())
      modifies this`links, this`levels, this`lists, this`threads, this`lastBoost
      ensures Woven(links, levels, lists) && Abs() == Boosted(old(Abs()), now) && |Flat(lists)| == |Flat(old(lists))|
    {
      hide Disjoint, ChainOk, Flat, QueuesOk, Raised, Drained;
      if lastBoost == 0 {
        lastBoost := now;
        return;
      }
      if (now - lastBoost) % WORD < BOOST_INTERVAL {
        return;
      }
      ghost var s := Abs();
      lastBoost := now;
      DrainStart(s);
      for lvl := 1 to LEVELS
        invariant Woven(links, levels, lists) && Drained(s.levels, lists, lvl) && lastBoost == now
        invariant threads == Raised(s.threads, Flat(s.levels[..lvl]))
      {
        QueueHere(s, lists, lvl, threads);
        DrainStep(s.levels, lists, lvl, s.threads);
        EmptyInto(lvl);
      }
      DrainEnd(s, lists, now);
    }

    // ---- the operations

    method Enqueue(t: nat)
      requires Valid() && t in threads && t != current && !Queued(Abs(), t)
      modifies this
      ensures Valid() && Abs() == Step(old(Abs()), SchedStates.Enqueue(t))
    {
      hide Woven, QueuesOk, Flat;
      PushOk(Abs(), t);
      ThreadFacts(t);
      var k := threads[t].level;
      FlatLength(lists, k, lists[k] + [t]);
      threads := threads[t := threads[t].(status := Ready)];
      MlfqPush(k, t);
      nrRunning := nrRunning + 1;
    }

    lemma ThreadFacts(t: nat)
      requires QueuesOk(Abs()) && t in threads
      ensures t != 0 && threads[t].level < LEVELS && |lists| == LEVELS
    {
    }

    /** sched_wake: only a blocked thread is enqueued. */
    method Wake(t: nat)
      requires Valid() && t in threads && t != current
      modifies this
      ensures Valid() && Abs() == Step(old(Abs()), SchedStates.Wake(t))
    {
      hide Woven, QueuesOk, Flat;
      if threads[t].status != Blocked && threads[t].status != Sleeping {
        return;
      }
      BlockedIsNowhere(t);
      Enqueue(t);
    }

    lemma BlockedIsNowhere(t: nat)
      requires QueuesOk(Abs()) && t in threads && threads[t].status != Ready
      ensures !Queued(Abs(), t)
    {
      forall l | 0 <= l < LEVELS ensures t !in lists[l] { assert QueueOk(threads, lists[l], l); }
    }

    method Dequeue(t: nat)
      requires Valid() && Queued(Abs(), t)
      modifies this
      ensures Valid() && Abs() == Step(old(Abs()), SchedStates.Dequeue(t))
    {
      hide Woven, QueuesOk, Flat, Without;
      RemoveOk(Abs(), t);
      ThreadFacts(t);
      var k := threads[t].level;
      ghost var i := Place(t);
      WithoutIndex(lists[k], i);
      FlatLength(lists, k, Without(lists[k], t));
      MlfqRemove(k, t, i);
      if nrRunning > 0 {
        nrRunning := nrRunning - 1;
      }
    }

    lemma Place(t: nat) returns (i: nat)
      requires QueuesOk(Abs()) && Queued(Abs(), t)
      ensures t in threads && threads[t].level < |lists| && i < |lists[threads[t].level]|
        && lists[threads[t].level][i] == t
      ensures NoDuplicates(lists[threads[t].level])
    {
      var l :| 0 <= l < LEVELS && t in lists[l];
      assert QueueOk(threads, lists[l], l);
      i :| 0 <= i < |lists[l]| && lists[l][i] == t;
    }

    /** schedule on one CPU: the current thread goes back if it is running, queues are boosted when that is due, and the
        first thread found is dispatched, or the idle thread. */
    method Schedule(now: nat)
      requires Valid()
      modifies this
      ensures Valid() && Abs() == SchedStates.Schedule(old(Abs()), now)
    {
      hide Woven, QueuesOk, Flat, Boosted, FirstLevel, Queued, NoDuplicates;
      ghost var s := Abs();
      PreparedOk(s, now);
      var prev := current;
      YieldCurrent();
      MaybeBoost(now);
      ghost var s1, l := Abs(), FirstLevel(lists);
      ScheduleOk(s, now);
      EightLists();
      if l < LEVELS {
        PopOk(s1, l);
        FlatLength(lists, l, lists[l][1..]);
      }
      var next := PickNext();
      if next == 0 {
        next := idle;
      } else {
        nrRunning := nrRunning - 1;
      }
      current := next;
      if next != prev {
        threads := threads[next := threads[next].(status := Running)];
      }
    }

    /** sched_mark_blocked and sched_exit_current, for the thread on the CPU. */
    method MarkCurrent(status: Status)
      requires Valid()
      modifies this`threads
      ensures Valid() && current in old(threads) && Abs() == Marked(old(Abs()), status)
    {
      hide Woven, Flat;
      ThreadFacts(current);
      CurrentChanged(Abs(), threads[current].(status := status));
      threads := threads[current := threads[current].(status := status)];
    }

    /** sched_tick, when the quantum is used up. */
    method Demote()
      requires Valid()
      modifies this`threads
      ensures Valid() && current in old(threads) && Abs() == Demoted(old(Abs()))
    {
      hide Woven, Flat;
      ThreadFacts(current);
      if threads[current].level < LEVELS - 1 {
        CurrentChanged(Abs(), threads[current].(level := threads[current].level + 1));
        threads := threads[current := threads[current].(level := threads[current].level + 1)];
      }
    }

    method Perform(op: Op)
      requires Valid() && Enabled(Abs(), op)
      modifies this
      ensures Valid() && Abs() == Step(old(Abs()), op)
    {
      hide Woven, QueuesOk, Flat, Queued, SchedStates.Schedule;
      match op
      case Enqueue(t) => Enqueue(t);
      case Wake(t) => Wake(t);
      case Dequeue(t) => Dequeue(t);
      case BlockCurrent => MarkCurrent(Blocked);
      case ExitCurrent => MarkCurrent(Zombie);
      case Demote => Demote();
      case DoSchedule(now) => Schedule(now);
    }

    /** Any run: the linked queues go through the abstract states, and after every operation the running count is the
        number of queued threads. */
    method Run(ops: seq<Op>) returns (counts: seq<nat>)
      requires Valid() && RunEnabled(Abs(), ops)
      modifies this
      ensures Valid() && Abs() == SchedStates.Run(old(Abs()), ops) && |counts| == |ops| + 1
      ensures forall k :: 0 <= k <= |ops| ==>
        RunEnabled(old(Abs()), ops[..k]) && counts[k] == |Flat(SchedStates.Run(old(Abs()), ops[..k]).levels)|
    {
      hide Woven, QueuesOk, Flat, Queued, Step, Enabled;
      ghost var s := Abs();
      counts := [nrRunning];
      assert ops[..0] == [];
      for i := 0 to |ops|
        invariant Valid() && |counts| == i + 1 && RunEnabled(s, ops[..i]) && Abs() == SchedStates.Run(s, ops[..i])
        invariant forall k :: 0 <= k <= i ==>
          RunEnabled(s, ops[..k]) && counts[k] == |Flat(SchedStates.Run(s, ops[..k]).levels)|
      {
        RunUpTo(s, ops, i);
        Perform(ops[i]);
        counts := counts + [nrRunning];
      }
      assert ops[..|ops|] == ops;
    }

    lemma EightLists()
      requires QueuesOk(Abs())
      ensures |lists| == LEVELS && idle in threads
    {
    }

    method YieldCurrent()
      requires Valid()
      modifies this`links, this`levels, this`lists, this`threads, this`nrRunning
      ensures Woven(links, levels, lists) && old(Ok(Abs())) && current in old(threads)
        && old(threads)[current].level < |old(lists)|
      ensures Abs() == Yielded(old(Abs())) && QueuesOk(Abs()) && nrRunning == |Flat(lists)|
    {
      hide Woven, QueuesOk, Flat;
      ThreadFacts(current);
      if threads[current].status == Running {
        PushOk(Abs(), current);
        var k := threads[current].level;
        FlatLength(lists, k, lists[k] + [current]);
        MlfqPush(k, current);
        threads := threads[current := threads[current].(status := Ready)];
        nrRunning := nrRunning + 1;
      }
    }
  }

  /** The threads of a queue not yet drained are known. */
  lemma QueueHere(s: State, lists: seq<seq<nat>>, lvl: nat, threads: map<nat, Thread>)
    requires QueuesOk(s) && Drained(s.levels, lists, lvl) && lvl < LEVELS
      && threads == Raised(s.threads, Flat(s.levels[..lvl]))
    ensures forall t :: t in lists[lvl] ==> t in threads
  {
    assert QueueOk(s.threads, s.levels[lvl], lvl);
  }

  lemma {:induction false} FirstLevelIs(lists: seq<seq<nat>>, l: nat)
    requires l <= |lists| && (l < |lists| ==> lists[l] != []) && forall m :: 0 <= m < l ==> lists[m] == []
    ensures FirstLevel(lists) == l
  {
  }
}
