/** The process tree of kernel/src/sched/task.c: parent pointers, sibling lists, zombies and who reaps them. Processes
    are named by their numbers; 0 is the null pointer. */
module Procs {
  import opened Seqs

  datatype Status = Running | Zombie(code: int) | Dead

  datatype Proc = Proc(parent: nat, children: nat, next: nat, status: Status, refcount: nat)

  ghost predicate SiblingLinked(procs: map<nat, Proc>, l: seq<nat>, i: nat)
    requires i < |l|
  {
    l[i] != 0 && l[i] in procs && procs[l[i]].next == At(l, i + 1)
  }

  ghost predicate ListOk(procs: map<nat, Proc>, head: nat, l: seq<nat>) {
    NoDuplicates(l) && head == At(l, 0) && forall i :: 0 <= i < |l| ==> SiblingLinked(procs, l, i)
  }

  /** A process not yet reaped whose parent pointer is `p`. */
  predicate ChildOf(procs: map<nat, Proc>, c: nat, p: nat) {
    c in procs && procs[c].status != Dead && procs[c].parent == p
  }

  /** The list starting at `head` holds exactly the unreaped processes whose parent is `p`, each of them once. */
  ghost predicate KidsOk(procs: map<nat, Proc>, p: nat, head: nat, l: seq<nat>) {
    ListOk(procs, head, l) && forall c :: c in l <==> ChildOf(procs, c, p)
  }

  /** The parent pointer of an unreaped process, if it has one, names a process that is there and has not exited, or the
      process `x` that is exiting just now. */
  predicate ParentOk(procs: map<nat, Proc>, c: nat, x: nat)
    requires c in procs
  {
    var p := procs[c].parent;
    procs[c].status != Dead && p != 0 ==> p != c && p in procs && (procs[p].status == Running || p == x)
  }

  /** The tree holds one reference to every process until it is reaped; the others are handles. */
  predicate RefsOk(procs: map<nat, Proc>, c: nat, handles: multiset<nat>)
    requires c in procs
  {
    procs[c].refcount == handles[c] + (if procs[c].status == Dead then 0 else 1) && procs[c].refcount > 0
  }

  /** The tree while `x` is exiting: its remaining children are those from `head` on. */
  ghost predicate TreeX(procs: map<nat, Proc>, kids: map<nat, seq<nat>>, handles: multiset<nat>, init: nat, x: nat,
      head: nat) {
    && 0 !in procs && kids.Keys == procs.Keys && init in procs && procs[init].status == Running
      && procs[init].parent == 0
    && (forall p :: p in procs ==> KidsOk(procs, p, if p == x then head else procs[p].children, kids[p]))
    && (forall c :: c in procs ==> ParentOk(procs, c, x))
    && (forall c :: c in procs ==> RefsOk(procs, c, handles))
    && (forall c :: c !in procs ==> handles[c] == 0)
  }

  /** The tree when nobody is exiting. */
  ghost predicate TreeOk(procs: map<nat, Proc>, kids: map<nat, seq<nat>>, handles: multiset<nat>, init: nat) {
    TreeX(procs, kids, handles, init, 0, 0)
  }

  /** Every unreaped process with a parent is on exactly one children list, its parent's. */
  lemma OnOneList(procs: map<nat, Proc>, kids: map<nat, seq<nat>>, handles: multiset<nat>, init: nat, c: nat, p: nat)
    requires TreeOk(procs, kids, handles, init) && c in procs && procs[c].status != Dead && procs[c].parent != 0
      && p in procs
    ensures procs[c].parent in procs && (c in kids[p] <==> p == procs[c].parent)
  {
    assert KidsOk(procs, p, procs[p].children, kids[p]) && ParentOk(procs, c, 0);
  }

  /** A list does not notice what happens to links of processes that are not on it. */
  lemma ListFrame(procs: map<nat, Proc>, procs': map<nat, Proc>, head: nat, l: seq<nat>)
    requires ListOk(procs, head, l) && forall c :: c in l && c in procs ==>
      c in procs' && procs'[c].next == procs[c].next
    ensures ListOk(procs', head, l)
  {
    forall i | 0 <= i < |l| ensures SiblingLinked(procs', l, i) {
      assert SiblingLinked(procs, l, i) && l[i] in l;
    }
  }

  lemma KidsFrame(procs: map<nat, Proc>, procs': map<nat, Proc>, p: nat, head: nat, l: seq<nat>)
    requires KidsOk(procs, p, head, l)
    requires forall c :: c in l && c in procs ==> c in procs' && procs'[c].next == procs[c].next
    requires forall c :: ChildOf(procs', c, p) <==> ChildOf(procs, c, p)
    ensures KidsOk(procs', p, head, l)
  {
    ListFrame(procs, procs', head, l);
    forall d ensures d in l <==> ChildOf(procs', d, p) {
      assert d in l <==> ChildOf(procs, d, p);
    }
  }

  // ---- putting a child on a list

  /** proc_add_child, together with the parent pointer. */
  function Adopted(procs: map<nat, Proc>, p: nat, c: nat): map<nat, Proc>
    requires p in procs && c in procs && c != p
  {
    procs[c := procs[c].(next := procs[p].children, parent := p)][p := procs[p].(children := c)]
  }

  lemma AdoptHere(procs: map<nat, Proc>, p: nat, c: nat, l: seq<nat>)
    requires p in procs && c in procs && c != p && c != 0 && c !in l && procs[c].status != Dead
    requires KidsOk(procs, p, procs[p].children, l)
    ensures KidsOk(Adopted(procs, p, c), p, c, [c] + l)
  {
    var procs', l' := Adopted(procs, p, c), [c] + l;
    forall i | 0 <= i < |l'| ensures SiblingLinked(procs', l', i) {
      if i > 0 { assert SiblingLinked(procs, l, i - 1) && l[i-1] in l; }
    }
    forall d ensures d in l' <==> ChildOf(procs', d, p) {
      assert d in l <==> ChildOf(procs, d, p);
    }
  }

  /** The child `c` goes from the list of `x`, where it is the first, to that of init. */
  lemma MoveOk(procs: map<nat, Proc>, kids: map<nat, seq<nat>>, handles: multiset<nat>, init: nat, x: nat, c: nat)
    requires x != init && x in procs && c != 0 && TreeX(procs, kids, handles, init, x, c)
    ensures c in procs && c != init && c != x && kids[x] != [] && kids[x][0] == c
    ensures TreeX(Adopted(procs, init, c), kids[x := kids[x][1..]][init := [c] + kids[init]], handles, init, x,
      procs[c].next)
  {
    MoveFacts(procs, kids, handles, init, x, c);
    hide ListOk, KidsOk, ParentOk, RefsOk, ChildOf;
    var procs', kids' := Adopted(procs, init, c), kids[x := kids[x][1..]][init := [c] + kids[init]];
    forall p | p in procs' ensures KidsOk(procs', p, if p == x then procs[c].next else procs'[p].children, kids'[p]) {
      MoveKids(procs, kids, handles, init, x, c, p);
    }
    forall d | d in procs' ensures ParentOk(procs', d, x) && RefsOk(procs', d, handles) {
      MoveRest(procs, kids, handles, init, x, c, d);
    }
  }

  lemma MoveKids(procs: map<nat, Proc>, kids: map<nat, seq<nat>>, handles: multiset<nat>, init: nat, x: nat, c: nat,
                 p: nat)
    requires x != init && x in procs && c != 0 && TreeX(procs, kids, handles, init, x, c) && p in procs
    ensures c in procs && c != init && kids[x] != []
    ensures var procs' := Adopted(procs, init, c);
      KidsOk(procs', p, if p == x then procs[c].next else procs'[p].children,
             if p == init then [c] + kids[init] else if p == x then kids[x][1..] else kids[p])
  {
    MoveFacts(procs, kids, handles, init, x, c);
    hide ListOk;
    assert KidsOk(procs, p, if p == x then c else procs[p].children, kids[p]);
    if p == init {
      AdoptHere(procs, init, c, kids[init]);
    } else if p == x {
      MoveAway(procs, Adopted(procs, init, c), x, kids[x]);
    } else {
      KidsFrame(procs, Adopted(procs, init, c), p, procs[p].children, kids[p]);
    }
  }

  lemma MoveRest(procs: map<nat, Proc>, kids: map<nat, seq<nat>>, handles: multiset<nat>, init: nat, x: nat, c: nat,
                 d: nat)
    requires x != init && x in procs && c != 0 && TreeX(procs, kids, handles, init, x, c) && d in procs
    ensures c in procs && c != init && ParentOk(Adopted(procs, init, c), d, x)
      && RefsOk(Adopted(procs, init, c), d, handles)
  {
    MoveFacts(procs, kids, handles, init, x, c);
    hide KidsOk;
    assert ParentOk(procs, d, x) && RefsOk(procs, d, handles);
  }

  lemma MoveFacts(procs: map<nat, Proc>, kids: map<nat, seq<nat>>, handles: multiset<nat>, init: nat, x: nat, c: nat)
    requires x != init && x in procs && c != 0 && TreeX(procs, kids, handles, init, x, c)
    ensures c in procs && c != init && c != x && kids[x] != [] && kids[x][0] == c && ChildOf(procs, c, x)
    ensures forall p :: p in procs && p != x ==> c !in kids[p]
  {
    var l := kids[x];
    assert KidsOk(procs, x, c, l) && SiblingLinked(procs, l, 0) && c in l;
    assert ChildOf(procs, c, x) && ParentOk(procs, c, x);
    forall p | p in procs && p != x ensures c !in kids[p] {
      assert KidsOk(procs, p, procs[p].children, kids[p]);
    }
  }

  /** What is left of a list when its first child has another parent. */
  lemma MoveAway(procs: map<nat, Proc>, procs': map<nat, Proc>, x: nat, l: seq<nat>)
    requires l != [] && KidsOk(procs, x, l[0], l) && l[0] in procs && procs'.Keys == procs.Keys
    requires forall d :: d in procs && d != l[0] ==>
      procs'[d].next == procs[d].next && procs'[d].parent == procs[d].parent
    requires forall d :: d in procs ==> procs'[d].status == procs[d].status
    requires procs'[l[0]].parent != x
    ensures KidsOk(procs', x, procs[l[0]].next, l[1..])
  {
    var l' := l[1..];
    assert SiblingLinked(procs, l, 0);
    forall i | 0 <= i < |l'| ensures SiblingLinked(procs', l', i) {
      assert SiblingLinked(procs, l, i + 1) && l[i+1] != l[0];
    }
    forall d ensures d in l' <==> ChildOf(procs', d, x) {
      assert d in l <==> ChildOf(procs, d, x);
      assert d in l <==> d == l[0] || d in l';
      assert l[0] !in l';
    }
  }

  // ---- fork

  lemma NewOk(procs: map<nat, Proc>, kids: map<nat, seq<nat>>, handles: multiset<nat>, init: nat, c: nat)
    requires TreeOk(procs, kids, handles, init) && c != 0 && c !in procs
    ensures TreeOk(procs[c := Proc(0, 0, 0, Running, 1)], kids[c := []], handles, init)
  {
    var procs', kids' := procs[c := Proc(0, 0, 0, Running, 1)], kids[c := []];
    forall p | p in procs' ensures KidsOk(procs', p, procs'[p].children, kids'[p]) {
      if p == c {
        forall d ensures !ChildOf(procs', d, c) {
          if d in procs { assert ParentOk(procs, d, 0); }
        }
      } else {
        assert KidsOk(procs, p, procs[p].children, kids[p]);
        KidsFrame(procs, procs', p, procs[p].children, kids[p]);
      }
    }
    forall d | d in procs' ensures ParentOk(procs', d, 0) && RefsOk(procs', d, handles) {
      if d != c { assert ParentOk(procs, d, 0) && RefsOk(procs, d, handles); }
    }
  }

  lemma AdoptOk(procs: map<nat, Proc>, kids: map<nat, seq<nat>>, handles: multiset<nat>, init: nat, p: nat, c: nat)
    requires TreeOk(procs, kids, handles, init) && p in procs && procs[p].status == Running
    requires c in procs && procs[c].parent == 0 && procs[c].status != Dead && c != p && c != init
    ensures TreeOk(Adopted(procs, p, c), kids[p := [c] + kids[p]], handles, init)
  {
    var procs', kids' := Adopted(procs, p, c), kids[p := [c] + kids[p]];
    forall q | q in procs' ensures KidsOk(procs', q, procs'[q].children, kids'[q]) {
      assert KidsOk(procs, q, procs[q].children, kids[q]) && c !in kids[q];
      if q == p {
        AdoptHere(procs, p, c, kids[p]);
      } else {
        KidsFrame(procs, procs', q, procs[q].children, kids[q]);
      }
    }
    forall d | d in procs' ensures ParentOk(procs', d, 0) && RefsOk(procs', d, handles) {
      assert ParentOk(procs, d, 0) && RefsOk(procs, d, handles);
    }
  }

  // ---- exit

  lemma ExitStart(procs: map<nat, Proc>, kids: map<nat, seq<nat>>, handles: multiset<nat>, init: nat, x: nat,
                  code: int)
    requires TreeOk(procs, kids, handles, init) && x in procs && x != init && procs[x].status == Running
    ensures TreeX(procs[x := procs[x].(status := Zombie(code))], kids, handles, init, x, procs[x].children)
  {
    var procs' := procs[x := procs[x].(status := Zombie(code))];
    forall p | p in procs' ensures KidsOk(procs', p, if p == x then procs[x].children
      else procs'[p].children, kids[p]) {
      assert KidsOk(procs, p, procs[p].children, kids[p]);
      KidsFrame(procs, procs', p, procs[p].children, kids[p]);
    }
    forall d | d in procs' ensures ParentOk(procs', d, x) && RefsOk(procs', d, handles) {
      assert ParentOk(procs, d, 0) && RefsOk(procs, d, handles);
    }
  }

  lemma ExitEnd(procs: map<nat, Proc>, kids: map<nat, seq<nat>>, handles: multiset<nat>, init: nat, x: nat)
    requires x in procs && x != init && TreeX(procs, kids, handles, init, x, 0)
    ensures kids[x] == [] && TreeOk(procs[x := procs[x].(children := 0)], kids, handles, init)
  {
    var procs' := procs[x := procs[x].(children := 0)];
    assert KidsOk(procs, x, 0, kids[x]);
    assert kids[x] != [] ==> SiblingLinked(procs, kids[x], 0);
    forall p | p in procs' ensures KidsOk(procs', p, procs'[p].children, kids[p]) {
      assert KidsOk(procs, p, if p == x then 0 else procs[p].children, kids[p]);
      KidsFrame(procs, procs', p, procs'[p].children, kids[p]);
    }
    forall d | d in procs' ensures ParentOk(procs', d, 0) && RefsOk(procs', d, handles) {
      assert ParentOk(procs, d, x) && RefsOk(procs, d, handles);
      assert !ChildOf(procs, d, x);
    }
  }

  // ---- references

  lemma HoldOk(procs: map<nat, Proc>, kids: map<nat, seq<nat>>, handles: multiset<nat>, init: nat, c: nat)
    requires TreeOk(procs, kids, handles, init) && c in procs
    ensures TreeOk(procs[c := procs[c].(refcount := procs[c].refcount + 1)], kids, handles + multiset{c}, init)
  {
    Recounted(procs, kids, handles, init, c, procs[c].refcount + 1, handles + multiset{c});
  }

  /** A reference count and the handles change together. */
  lemma Recounted(procs: map<nat, Proc>, kids: map<nat, seq<nat>>, handles: multiset<nat>, init: nat, c: nat, n: nat,
                  handles': multiset<nat>)
    requires TreeOk(procs, kids, handles, init) && c in procs && n > 0
      && n + handles[c] == procs[c].refcount + handles'[c]
    requires forall d :: d != c ==> handles'[d] == handles[d]
    ensures TreeOk(procs[c := procs[c].(refcount := n)], kids, handles', init)
  {
    var procs' := procs[c := procs[c].(refcount := n)];
    forall p | p in procs' ensures KidsOk(procs', p, procs'[p].children, kids[p]) {
      assert KidsOk(procs, p, procs[p].children, kids[p]);
      KidsFrame(procs, procs', p, procs[p].children, kids[p]);
    }
    forall d | d in procs' ensures ParentOk(procs', d, 0) && RefsOk(procs', d, handles') {
      assert ParentOk(procs, d, 0) && RefsOk(procs, d, handles);
    }
  }

  /** The last reference goes: the process has been reaped, so nothing leads to it. */
  lemma FreeOk(procs: map<nat, Proc>, kids: map<nat, seq<nat>>, handles: multiset<nat>, init: nat, c: nat)
    requires TreeOk(procs, kids, handles, init) && c in handles && c in procs && procs[c].refcount == 1
    ensures procs[c].status == Dead && TreeOk(procs - {c}, kids - {c}, handles - multiset{c}, init)
  {
    assert RefsOk(procs, c, handles);
    var procs', handles' := procs - {c}, handles - multiset{c};
    forall p | p in procs' ensures KidsOk(procs', p, procs'[p].children, kids[p]) {
      assert KidsOk(procs, p, procs[p].children, kids[p]);
      KidsFrame(procs, procs', p, procs[p].children, kids[p]);
    }
    forall d | d in procs' ensures ParentOk(procs', d, 0) && RefsOk(procs', d, handles') {
      assert ParentOk(procs, d, 0) && RefsOk(procs, d, handles);
    }
  }

  // ---- wait

  /** The zombie at place `i` of the list of `p` is taken off it and marked as reaped. */
  function Reaped(procs: map<nat, Proc>, p: nat, prev: nat, c: nat): map<nat, Proc>
    requires p in procs && c in procs && (prev != 0 ==> prev in procs)
  {
    var next := procs[c].next;
    var procs1 := if prev != 0 then procs[prev := procs[prev].(next := next)]
      else procs[p := procs[p].(children := next)];
    procs1[c := procs1[c].(status := Dead)]
  }

  lemma ReapFacts(procs: map<nat, Proc>, kids: map<nat, seq<nat>>, handles: multiset<nat>, init: nat, p: nat, i: nat)
    requires TreeOk(procs, kids, handles, init) && p in procs && i < |kids[p]|
    ensures var l := kids[p];
      l[i] in procs && l[i] != 0 && l[i] != p && procs[l[i]].parent == p && procs[l[i]].status != Dead
    ensures procs[p].status == Running
    ensures var l := kids[p];
      i > 0 ==> l[i-1] in procs && l[i-1] != 0 && l[i-1] != l[i] && l[i-1] != p && procs[l[i-1]].parent == p
  {
    var l := kids[p];
    assert KidsOk(procs, p, procs[p].children, l) && SiblingLinked(procs, l, i) && l[i] in l;
    assert ParentOk(procs, l[i], 0);
    if i > 0 {
      assert SiblingLinked(procs, l, i - 1) && l[i-1] in l;
      assert ParentOk(procs, l[i-1], 0);
    }
  }

  /** Reaping keeps the tree in order; the reference the tree held is now the reaper's. */
  lemma ReapOk(procs: map<nat, Proc>, kids: map<nat, seq<nat>>, handles: multiset<nat>, init: nat, p: nat, i: nat)
    requires TreeOk(procs, kids, handles, init) && p in procs && i < |kids[p]|
    requires kids[p][i] in procs && procs[kids[p][i]].status.Zombie?
    ensures var l := kids[p]; var c, prev := l[i], if i > 0 then l[i-1] else 0;
      (prev != 0 ==> prev in procs)
      && TreeOk(Reaped(procs, p, prev, c), kids[p := l[..i] + l[i+1..]], handles + multiset{c}, init)
  {
    hide TreeX, KidsOk, ParentOk, RefsOk, Reaped;
    TreeBasics(procs, kids, handles, init);
    ReapFacts(procs, kids, handles, init, p, i);
    var l := kids[p];
    var c, prev := l[i], if i > 0 then l[i-1] else 0;
    ReapedBasics(procs, p, prev, c);
    var procs', kids', handles' := Reaped(procs, p, prev, c), kids[p := l[..i] + l[i+1..]], handles + multiset{c};
    forall q | q in procs' ensures KidsOk(procs', q, procs'[q].children, kids'[q]) {
      ReapKids(procs, kids, handles, init, p, i, q);
    }
    forall d | d in procs' ensures ParentOk(procs', d, 0) && RefsOk(procs', d, handles') {
      ReapRest(procs, handles, p, prev, c, d);
    }
    TreeFrom(procs', kids', handles', init);
  }

  lemma TreeBasics(procs: map<nat, Proc>, kids: map<nat, seq<nat>>, handles: multiset<nat>, init: nat)
    requires TreeOk(procs, kids, handles, init)
    ensures 0 !in procs && kids.Keys == procs.Keys && init in procs && procs[init].status == Running
      && procs[init].parent == 0
    ensures forall c :: c in procs ==> ParentOk(procs, c, 0) && RefsOk(procs, c, handles)
    ensures forall c :: c !in procs ==> handles[c] == 0
  {
  }

  lemma TreeFrom(procs: map<nat, Proc>, kids: map<nat, seq<nat>>, handles: multiset<nat>, init: nat)
    requires 0 !in procs && kids.Keys == procs.Keys && init in procs && procs[init].status == Running
      && procs[init].parent == 0
    requires forall p :: p in procs ==> KidsOk(procs, p, procs[p].children, kids[p])
    requires forall c :: c in procs ==> ParentOk(procs, c, 0) && RefsOk(procs, c, handles)
    requires forall c :: c !in procs ==> handles[c] == 0
    ensures TreeOk(procs, kids, handles, init)
  {
  }

  lemma ReapedBasics(procs: map<nat, Proc>, p: nat, prev: nat, c: nat)
    requires p in procs && c in procs && (prev != 0 ==> prev in procs)
    ensures var procs' := Reaped(procs, p, prev, c);
      procs'.Keys == procs.Keys && forall d :: d in procs ==>
        procs'[d].parent == procs[d].parent && (d != c ==> procs'[d].status == procs[d].status)
  {
  }

  lemma ReapKids(procs: map<nat, Proc>, kids: map<nat, seq<nat>>, handles: multiset<nat>, init: nat, p: nat, i: nat,
                 q: nat)
    requires TreeOk(procs, kids, handles, init) && p in procs && i < |kids[p]| && q in procs
    requires kids[p][i] in procs && procs[kids[p][i]].status.Zombie?
    ensures var l := kids[p]; var c, prev := l[i], if i > 0 then l[i-1] else 0; (prev != 0 ==> prev in procs)
    ensures var l := kids[p]; var c, prev := l[i], if i > 0 then l[i-1] else 0; var procs' := Reaped(procs, p, prev, c);
      KidsOk(procs', q, procs'[q].children, if q == p then l[..i] + l[i+1..] else kids[q])
  {
    ReapFacts(procs, kids, handles, init, p, i);
    assert KidsOk(procs, q, procs[q].children, kids[q]);
    hide ListOk, SiblingLinked, KidsOk, ChildOf, ParentOk, RefsOk, TreeX;
    var l := kids[p];
    if q == p {
      ReapHere(procs, p, l, i);
    } else {
      ReapElsewhere(procs, p, if i > 0 then l[i-1] else 0, l[i], q, kids[q]);
    }
  }

  lemma ReapRest(procs: map<nat, Proc>, handles: multiset<nat>, p: nat, prev: nat, c: nat, d: nat)
    requires p in procs && c in procs && d in procs && (prev != 0 ==> prev in procs) && procs[c].status.Zombie?
    requires ParentOk(procs, d, 0) && RefsOk(procs, d, handles) && c != 0
    ensures ParentOk(Reaped(procs, p, prev, c), d, 0) && RefsOk(Reaped(procs, p, prev, c), d, handles + multiset{c})
  {
  }

  lemma ReapElsewhere(procs: map<nat, Proc>, p: nat, prev: nat, c: nat, q: nat, l: seq<nat>)
    requires p in procs && q in procs && q != p && KidsOk(procs, q, procs[q].children, l)
    requires c in procs && procs[c].parent == p && (prev != 0 ==> prev in procs && procs[prev].parent == p) && prev != c
    ensures KidsOk(Reaped(procs, p, prev, c), q, procs[q].children, l)
  {
    var procs' := Reaped(procs, p, prev, c);
    assert c !in l && (prev != 0 ==> prev !in l);
    KidsFrame(procs, procs', q, procs[q].children, l);
  }

  lemma ReapHere(procs: map<nat, Proc>, p: nat, l: seq<nat>, i: nat)
    requires p in procs && KidsOk(procs, p, procs[p].children, l) && i < |l| && l[i] in procs && l[i] != p
    requires i > 0 ==> l[i-1] in procs && l[i-1] != 0 && l[i-1] != p && l[i-1] != l[i]
    ensures var procs' := Reaped(procs, p, if i > 0 then l[i-1] else 0, l[i]);
      KidsOk(procs', p, procs'[p].children, l[..i] + l[i+1..])
  {
    var c, prev := l[i], if i > 0 then l[i-1] else 0;
    var procs', l' := Reaped(procs, p, prev, c), l[..i] + l[i+1..];
    CutMembers(l, i);
    assert SiblingLinked(procs, l, i);
    forall j | 0 <= j < |l'| ensures SiblingLinked(procs', l', j) {
      ReapLink(procs, p, l, i, j);
    }
    assert At(l', 0) == At(l, if i > 0 then 0 else 1);
    forall d ensures d in l' <==> ChildOf(procs', d, p) {
      assert d in l <==> ChildOf(procs, d, p);
    }
  }

  lemma ReapLink(procs: map<nat, Proc>, p: nat, l: seq<nat>, i: nat, j: nat)
    requires p in procs && ListOk(procs, procs[p].children, l) && i < |l| && l[i] in procs && l[i] != p && j < |l| - 1
    requires i > 0 ==> l[i-1] in procs && l[i-1] != 0 && l[i-1] != p && l[i-1] != l[i]
    ensures SiblingLinked(Reaped(procs, p, if i > 0 then l[i-1] else 0, l[i]), l[..i] + l[i+1..], j)
  {
    var m := if j < i then j else j + 1;
    var l' := l[..i] + l[i+1..];
    assert l'[j] == l[m] && At(l', j + 1) == At(l, if j + 1 < i then j + 1 else j + 2);
    assert SiblingLinked(procs, l, m) && SiblingLinked(procs, l, i) && l[m] != l[i];
    assert i > 0 && m != i - 1 ==> l[m] != l[i-1];
  }

  /** proc_wait for any child, or for one. */
  predicate Matches(c: nat, which: int) {
    which == -1 || c == which
  }

  predicate ZombieAsked(status: map<nat, Status>, c: nat, which: int) {
    Matches(c, which) && c in status && status[c].Zombie?
  }

  /** The first zombie child that is asked for; the length if there is none. */
  function FirstZombie(status: map<nat, Status>, l: seq<nat>, which: int): (i: nat)
    ensures i <= |l| && (i < |l| ==> ZombieAsked(status, l[i], which))
    ensures forall j :: 0 <= j < i ==> !ZombieAsked(status, l[j], which)
  {
    if l == [] || ZombieAsked(status, l[0], which) then 0 else 1 + FirstZombie(status, l[1..], which)
  }

  datatype Op = ForkOp(parent: nat, child: nat) | ExitOp(proc: nat, code: int) | WaitOp(parent: nat, which: int)

  datatype WaitResult = Found(pid: nat, code: int) | NoChild | Block

  // ---- what the callers see: the unreaped processes, and whose children they are

  /** The status of the processes not yet reaped, their children lists, and all numbers ever given out. */
  datatype View = View(status: map<nat, Status>, kids: map<nat, seq<nat>>, used: set<nat>)

  datatype Result = Forked(pid: nat) | Refused | Exited | Waited(wait: WaitResult)

  function Statuses(procs: map<nat, Proc>): map<nat, Status> {
    map c | c in procs && procs[c].status != Dead :: procs[c].status
  }

  function ForkView(v: View, p: nat, c: nat): (View, Result) {
    if p in v.status && p in v.kids && v.status[p] == Running && c != 0 && c !in v.used
    then (View(v.status[c := Running], v.kids[c := []][p := [c] + v.kids[p]], v.used + {c}), Forked(c))
    else (v, Refused)
  }

  /** The children of a process that exits go to init, the last one first; a zombie exits no second time. */
  function ExitView(v: View, init: nat, p: nat, code: int): (View, Result) {
    if p !in v.status || p !in v.kids || init !in v.kids || p == init then (v, Refused)
    else if v.status[p] != Running then (v, Exited)
    else (View(v.status[p := Zombie(code)], v.kids[p := []][init := Onto(v.kids[p], v.kids[init])], v.used), Exited)
  }

  /** The first zombie child asked for is reaped and gone. */
  function WaitView(v: View, p: nat, which: int): (View, Result) {
    if p !in v.status || p !in v.kids then (v, Refused)
    else
      var l := v.kids[p];
      var i := FirstZombie(v.status, l, which);
      if i < |l| then
        (View(v.status - {l[i]}, v.kids[p := l[..i] + l[i+1..]] - {l[i]}, v.used),
         Waited(Found(l[i], v.status[l[i]].code)))
      else (v, Waited(if exists j :: 0 <= j < |l| && Matches(l[j], which) then Block else NoChild))
  }

  function StepView(v: View, init: nat, op: Op): (View, Result) {
    match op
    case ForkOp(p, c) => ForkView(v, p, c)
    case ExitOp(p, code) => ExitView(v, init, p, code)
    case WaitOp(p, which) => WaitView(v, p, which)
  }

  function RunView(v: View, init: nat, ops: seq<Op>): (View, seq<Result>)
    decreases |ops|
  {
    if ops == [] then (v, [])
    else
      var (v1, r) := StepView(v, init, ops[0]);
      var (v2, rs) := RunView(v1, init, ops[1..]);
      (v2, [r] + rs)
  }

  function ForkedBy(rs: seq<Result>): seq<nat> {
    if rs == [] then [] else (if rs[0].Forked? then [rs[0].pid] else []) + ForkedBy(rs[1..])
  }

  function ReapedBy(rs: seq<Result>): seq<nat> {
    if rs == [] then []
    else (if rs[0].Waited? && rs[0].wait.Found? then [rs[0].wait.pid] else []) + ReapedBy(rs[1..])
  }

  // ---- what the calls do, child by child

  predicate Asked(v: View, c: nat, which: int) {
    (which == -1 || which == c) && c in v.status && v.status[c].Zombie?
  }

  /** Reply `r` and view `v'` are what task.c promises of the call. */
  ghost predicate Promised(v: View, init: nat, op: Op, v': View, r: Result) {
    match op
    case ForkOp(p, c) =>
      if p in v.kids && p in v.status && v.status[p] == Running && c != 0 && c !in v.used then
        && r == Forked(c) && v'.used == v.used + {c} && v'.status == v.status[c := Running]
        && v'.kids.Keys == v.kids.Keys + {c} && v'.kids[p] == [c] + v.kids[p]
        && (c != p ==> v'.kids[c] == []) && forall d :: d in v.kids && d != p && d != c ==> v'.kids[d] == v.kids[d]
      else r == Refused && v' == v
    case ExitOp(p, code) =>
      if p == init || p !in v.status || p !in v.kids || init !in v.kids then r == Refused && v' == v
      else if v.status[p] != Running then r == Exited && v' == v
      else
        && r == Exited && v'.used == v.used && v'.status == v.status[p := Zombie(code)]
        && v'.kids.Keys == v.kids.Keys && v'.kids[p] == [] && Reversed(v.kids[p], v.kids[init], v'.kids[init])
        && forall d :: d in v.kids && d != p && d != init ==> v'.kids[d] == v.kids[d]
    case WaitOp(p, which) =>
      if p !in v.status || p !in v.kids then r == Refused && v' == v
      else r.Waited? && Reaping(v, p, which, v', r.wait)
  }

  /** The first zombie asked for goes; without one the caller is told whether there is any child to wait for. */
  ghost predicate Reaping(v: View, p: nat, which: int, v': View, w: WaitResult)
    requires p in v.kids
  {
    var l := v.kids[p];
    match w
    case Found(c, code) =>
      exists i :: 0 <= i < |l| && l[i] == c && Asked(v, c, which) && v.status[c] == Zombie(code)
        && (forall j :: 0 <= j < i ==> !Asked(v, l[j], which))
        && v' == View(v.status - {c}, v.kids[p := l[..i] + l[i+1..]] - {c}, v.used)
    case NoChild => v' == v && if which == -1 then l == [] else which !in l
    case Block =>
      && v' == v && (if which == -1 then l != [] else which in l)
      && forall j :: 0 <= j < |l| ==> !Asked(v, l[j], which)
  }

  /** The first list, turned round, in front of the second. */
  ghost predicate Reversed(l: seq<nat>, m: seq<nat>, r: seq<nat>) {
    && |r| == |l| + |m| && (forall i :: 0 <= i < |l| ==> r[i] == l[|l| - 1 - i])
    && forall i :: 0 <= i < |m| ==> r[|l| + i] == m[i]
  }

  lemma {:induction false} OntoReverses(l: seq<nat>, m: seq<nat>)
    ensures Reversed(l, m, Onto(l, m))
  {
    if l != [] {
      OntoReverses(l[1..], [l[0]] + m);
      var r := Onto(l, m);
      assert r[|l| - 1] == ([l[0]] + m)[0];
      forall i | 0 <= i < |m| ensures r[|l| + i] == m[i] { assert r[|l| - 1 + (i + 1)] == ([l[0]] + m)[i + 1]; }
      forall i | 0 <= i < |l| - 1 ensures r[i] == l[|l| - 1 - i] { assert r[i] == l[1..][|l| - 2 - i]; }
    }
  }

  /** Every call keeps its promise. */
  lemma StepPromised(v: View, init: nat, op: Op)
    ensures Promised(v, init, op, StepView(v, init, op).0, StepView(v, init, op).1)
  {
    match op
    case ForkOp(p, c) =>
    case ExitOp(p, code) =>
      if p in v.kids && init in v.kids { OntoReverses(v.kids[p], v.kids[init]); }
    case WaitOp(p, which) =>
      if p in v.status && p in v.kids {
        var l := v.kids[p];
        forall c ensures ZombieAsked(v.status, c, which) <==> Asked(v, c, which) {}
        hide FirstZombie;
        var i := FirstZombie(v.status, l, which);
        if i < |l| { assert l[i] == StepView(v, init, op).1.wait.pid; }
        if l != [] { assert l[0] in l; }
      }
  }

  /** A step makes a zombie only of the process that exits. */
  lemma StepCode(v: View, init: nat, op: Op, c: nat, code: int)
    requires var v' := StepView(v, init, op).0; c in v'.status && v'.status[c] == Zombie(code)
    ensures op == ExitOp(c, code) || (c in v.status && v.status[c] == Zombie(code))
  {
  }

  /** The code a wait reports is the one the process exited with, in the run or before it. */
  lemma {:induction false} WaitReportsExit(v: View, init: nat, ops: seq<Op>, k: nat, c: nat, code: int)
    requires k < |ops| && |RunView(v, init, ops).1| == |ops| && RunView(v, init, ops).1[k] == Waited(Found(c, code))
    ensures (c in v.status && v.status[c] == Zombie(code)) || exists i :: 0 <= i < k && ops[i] == ExitOp(c, code)
    decreases |ops|
  {
    hide FirstZombie;
    var (v1, r) := StepView(v, init, ops[0]);
    if k > 0 {
      WaitReportsExit(v1, init, ops[1..], k - 1, c, code);
      if c in v1.status && v1.status[c] == Zombie(code) {
        StepCode(v, init, ops[0], c, code);
      } else {
        var i :| 0 <= i < k - 1 && ops[1..][i] == ExitOp(c, code);
        assert ops[i + 1] == ExitOp(c, code);
      }
    }
  }

  lemma StepConserves(v: View, init: nat, op: Op)
    requires v.status.Keys <= v.used
    ensures var (v', r) := StepView(v, init, op);
      && v'.status.Keys <= v'.used && v'.used == v.used + Members(ForkedBy([r]))
      && Members(ForkedBy([r])) !! v.used && NoDuplicates(ForkedBy([r]))
      && v'.status.Keys == v.status.Keys + Members(ForkedBy([r])) - Members(ReapedBy([r]))
      && Members(ReapedBy([r])) <= v.status.Keys && NoDuplicates(ReapedBy([r]))
  {
    var r := StepView(v, init, op).1;
    assert ForkedBy([r]) == if r.Forked? then [r.pid] else [] by { assert [r][1..] == []; }
    assert ReapedBy([r]) == if r.Waited? && r.wait.Found? then [r.wait.pid] else [] by { assert [r][1..] == []; }
  }

  /** Nobody vanishes and nobody is reaped twice: the unreaped processes at the end and the reaped ones are, without
      overlap, the unreaped ones at the start and the forked ones. */
  lemma {:induction false} RunConserves(v: View, init: nat, ops: seq<Op>)
    requires v.status.Keys <= v.used
    ensures var (v', rs) := RunView(v, init, ops);
      && |rs| == |ops| && NoDuplicates(ForkedBy(rs)) && NoDuplicates(ReapedBy(rs)) && Members(ForkedBy(rs)) !! v.used
      && v'.status.Keys <= v'.used && v'.used == v.used + Members(ForkedBy(rs))
      && v'.status.Keys !! Members(ReapedBy(rs))
      && v'.status.Keys + Members(ReapedBy(rs)) == v.status.Keys + Members(ForkedBy(rs))
    decreases |ops|
  {
    if ops != [] {
      var (v1, r) := StepView(v, init, ops[0]);
      StepConserves(v, init, ops[0]);
      RunConserves(v1, init, ops[1..]);
      var (v2, rs) := RunView(v1, init, ops[1..]);
      ConsBy(r, rs);
      JoinDistinct(ForkedBy([r]), ForkedBy(rs));
      forall c | c in Members(ReapedBy([r])) ensures c !in Members(ReapedBy(rs)) {
        assert c in v.used && c in v1.used && c !in v1.status;
      }
      JoinDistinct(ReapedBy([r]), ReapedBy(rs));
    }
  }

  lemma ConsBy(r: Result, rs: seq<Result>)
    ensures ForkedBy([r] + rs) == ForkedBy([r]) + ForkedBy(rs) && ReapedBy([r] + rs) == ReapedBy([r]) + ReapedBy(rs)
  {
    assert ([r] + rs)[1..] == rs && [r][1..] == [];
  }

  lemma JoinDistinct(a: seq<nat>, b: seq<nat>)
    requires NoDuplicates(a) && NoDuplicates(b) && Members(a) !! Members(b)
    ensures NoDuplicates(a + b) && Members(a + b) == Members(a) + Members(b)
  {
    forall i, j | 0 <= i < |a| && 0 <= j < |b| ensures a[i] != b[j] {
      assert a[i] in Members(a) && b[j] in Members(b);
    }
  }

  lemma {:induction false} RunMore(v: View, init: nat, ops: seq<Op>, op: Op)
    ensures var (v1, rs) := RunView(v, init, ops); var (v2, r) := StepView(v1, init, op);
      RunView(v, init, ops + [op]) == (v2, rs + [r])
    decreases |ops|
  {
    var all := ops + [op];
    if ops == [] {
      assert all == [op] && all[1..] == [];
      var (v2, r) := StepView(v, init, op);
      assert RunView(v2, init, all[1..]) == (v2, []);
      assert [r] + [] == [] + [r];
    } else {
      assert all[0] == ops[0] && all[1..] == ops[1..] + [op];
      var (v1, r1) := StepView(v, init, ops[0]);
      RunMore(v1, init, ops[1..], op);
      var (v2, rs) := RunView(v1, init, ops[1..]);
      var (v3, r) := StepView(v2, init, op);
      assert [r1] + (rs + [r]) == ([r1] + rs) + [r];
    }
  }

  /** Reversed onto another list, as the orphans of an exiting process go to init. */
  function Onto(l: seq<nat>, m: seq<nat>): seq<nat> {
    if l == [] then m else Onto(l[1..], [l[0]] + m)
  }

  function Dereferenced(procs: map<nat, Proc>, c: nat): map<nat, Proc>
    requires c in procs
  {
    if procs[c].refcount > 1 then procs[c := procs[c].(refcount := procs[c].refcount - 1)] else procs - {c}
  }

  lemma OntoStep(l: seq<nat>, m: seq<nat>)
    ensures l != [] ==> Onto(l, m) == Onto(l[1..], [l[0]] + m)
  {
  }

  lemma ReapedStatuses(procs: map<nat, Proc>, p: nat, prev: nat, c: nat)
    requires p in procs && c in procs && (prev != 0 ==> prev in procs)
    ensures Statuses(Reaped(procs, p, prev, c)) == Statuses(procs) - {c}
  {
  }

  lemma StatusIs(procs: map<nat, Proc>, c: nat)
    ensures c in Statuses(procs) <==> c in procs && procs[c].status != Dead
  {
  }

  /** The lists of the unreaped processes. */
  function Visible(kids: map<nat, seq<nat>>, status: map<nat, Status>): map<nat, seq<nat>> {
    map c | c in kids && c in status :: kids[c]
  }

  lemma VisibleWithout(kids: map<nat, seq<nat>>, kids': map<nat, seq<nat>>, status: map<nat, Status>, p: nat, c: nat,
                       l: seq<nat>)
    requires kids' - {c} == kids[p := l] - {c} && p in kids && p in status
    ensures Visible(kids', status - {c}) == Visible(kids, status)[p := l] - {c}
  {
    var a, b := kids' - {c}, kids[p := l] - {c};
    forall d | d != c ensures (d in kids' <==> d in kids) && (d in kids ==> kids'[d] == if d == p then l else kids[d]) {
      assert d in a <==> d in b;
      assert d in a ==> a[d] == b[d];
    }
  }

  lemma DeadStatuses(procs: map<nat, Proc>, c: nat)
    requires c in procs && procs[c].status == Dead
    ensures Statuses(Dereferenced(procs, c)) == Statuses(procs)
  {
  }

  class ProcTable {
    const init: nat
    var procs: map<nat, Proc>
    ghost var kids: map<nat, seq<nat>>
    ghost var handles: multiset<nat>

    ghost predicate Valid()
      reads this
    {
      TreeOk(procs, kids, handles, init)
    }

    /** The init process alone. */
    constructor (init: nat)
      requires init != 0
      ensures Valid() && this.init == init && procs.Keys == {init} && handles == multiset{}
    {
      this.init := init;
      procs, kids, handles := map[init := Proc(0, 0, 0, Running, 1)], map[init := []], multiset{};
    }

    /** The part of proc_fork that concerns the tree. */
    method Fork(p: nat, c: nat)
      requires Valid() && p in procs && procs[p].status == Running && c != 0 && c !in procs
      modifies this`procs, this`kids
      ensures Valid() && kids == old(kids)[c := []][p := [c] + old(kids)[p]]
      ensures c in procs && procs[c].parent == p && procs[c].status == Running
      ensures procs.Keys == old(procs).Keys + {c}
      ensures forall d :: d in old(procs) ==>
        d in procs && procs[d].status == old(procs)[d].status && procs[d].parent == old(procs)[d].parent
    {
      hide TreeX;
      TreeFacts();
      NewOk(procs, kids, handles, init, c);
      procs, kids := procs[c := Proc(0, 0, 0, Running, 1)], kids[c := []];
      AdoptOk(procs, kids, handles, init, p, c);
      procs := procs[c := procs[c].(next := procs[p].children, parent := p)];
      procs := procs[p := procs[p].(children := c)];
      kids := kids[p := [c] + kids[p]];
    }

    lemma TreeFacts()
      requires Valid()
      ensures 0 !in procs && kids.Keys == procs.Keys && init in procs && procs[init].status == Running
    {
    }

    /** proc_exit: a second exit does nothing; else the children all go to init, the last one first. */
    method Exit(p: nat, code: int)
      requires Valid() && p in procs && p != init
      modifies this`procs, this`kids
      ensures Valid()
      ensures old(procs)[p].status != Running ==> procs == old(procs) && kids == old(kids)
      ensures old(procs)[p].status == Running ==> p in procs && procs[p].status == Zombie(code)
      ensures old(procs)[p].status == Running ==>
        kids == old(kids)[p := []][init := Onto(old(kids)[p], old(kids)[init])]
      ensures procs.Keys == old(procs).Keys && forall d :: d in procs && d != p ==>
        procs[d].status == old(procs)[d].status
      ensures forall d :: d in procs ==>
        procs[d].parent == if old(procs)[p].status == Running && d in old(kids)[p] then init else old(procs)[d].parent
    {
      hide TreeX;
      if procs[p].status != Running {
        NoKids(p);
        return;
      }
      TreeFacts();
      ExitStart(procs, kids, handles, init, p, code);
      procs := procs[p := procs[p].(status := Zombie(code))];
      HandOver(p);
      ExitEnd(procs, kids, handles, init, p);
      procs := procs[p := procs[p].(children := 0)];
    }

    lemma NoKids(p: nat)
      requires Valid() && p in procs && procs[p].status != Running
      ensures kids[p] == []
    {
      var l := kids[p];
      assert KidsOk(procs, p, procs[p].children, l);
      var first := At(l, 0);
      assert l != [] ==> first in l;
      forall c | c in procs ensures !ChildOf(procs, c, p) {
        assert ParentOk(procs, c, 0);
      }
      assert first in l <==> ChildOf(procs, first, p);
    }

    /** The loop of proc_exit. */
    method HandOver(p: nat)
      requires p in procs && p != init && p in kids && init in kids
        && TreeX(procs, kids, handles, init, p, procs[p].children)
      modifies this`procs, this`kids
      ensures TreeX(procs, kids, handles, init, p, 0) && procs.Keys == old(procs).Keys
      ensures kids == old(kids)[p := []][init := Onto(old(kids)[p], old(kids)[init])]
      ensures forall d :: d in procs ==> procs[d].status == old(procs)[d].status
      ensures forall d :: d in procs ==> procs[d].parent == if d in old(kids)[p] then init else old(procs)[d].parent
    {
      hide TreeX;
      var child := procs[p].children;
      ghost var l, i := kids[p], 0;
      HeadIs(p, child);
      while child != 0
        invariant i <= |l| && p in procs && procs.Keys == old(procs).Keys && TreeX(procs, kids, handles, init, p, child)
        invariant p in kids && init in kids && kids[p] == l[i..]
        invariant kids == old(kids)[p := kids[p]][init := kids[init]]
          && Onto(kids[p], kids[init]) == Onto(l, old(kids)[init])
        invariant forall d :: d in procs ==> procs[d].status == old(procs)[d].status
        invariant forall d :: d in procs ==> procs[d].parent == if d in l[..i] then init else old(procs)[d].parent
        decreases |l| - i
      {
        HeadIs(p, child);
        OntoStep(kids[p], kids[init]);
        assert l[..i+1] == l[..i] + [child] && l[i..][1..] == l[i+1..];
        child := MoveFirst(p, child);
        i := i + 1;
      }
      Finished(p);
      assert l[..i] == l;
    }

    /** One turn of it: the first child left goes to the head of the list of init. */
    method MoveFirst(p: nat, child: nat) returns (next: nat)
      requires p in procs && p != init && p in kids && init in kids && child != 0
        && TreeX(procs, kids, handles, init, p, child)
      modifies this`procs, this`kids
      ensures TreeX(procs, kids, handles, init, p, next) && procs.Keys == old(procs).Keys
      ensures |old(kids)[p]| > 0 && kids == old(kids)[p := old(kids)[p][1..]][init := [child] + old(kids)[init]]
      ensures forall d :: d in procs ==> procs[d].status == old(procs)[d].status
      ensures forall d :: d in procs ==> procs[d].parent == if d == child then init else old(procs)[d].parent
    {
      hide TreeX;
      MoveOk(procs, kids, handles, init, p, child);
      InitThere(p, child);
      next := procs[child].next;
      procs := procs[child := procs[child].(next := procs[init].children, parent := init)];
      procs := procs[init := procs[init].(children := child)];
      kids := kids[p := kids[p][1..]][init := [child] + kids[init]];
    }

    lemma HeadIs(p: nat, head: nat)
      requires TreeX(procs, kids, handles, init, p, head) && p in procs && p in kids
      ensures head == At(kids[p], 0)
    {
    }

    lemma InitThere(p: nat, head: nat)
      requires TreeX(procs, kids, handles, init, p, head)
      ensures init in procs
    {
    }

    lemma Finished(p: nat)
      requires TreeX(procs, kids, handles, init, p, 0) && p in procs && p in kids
      ensures kids[p] == []
    {
      assert KidsOk(procs, p, 0, kids[p]);
      assert kids[p] != [] ==> SiblingLinked(procs, kids[p], 0);
    }

    /** One pass of proc_wait: reaps the first zombie child asked for, or says that there is no such child or that the
        caller has to wait. */
    method Wait(p: nat, which: int) returns (r: WaitResult)
      requires Valid() && p in procs
      modifies this
      ensures Valid() && handles == old(handles)
      ensures var l := old(kids)[p]; var i := FirstZombie(Statuses(old(procs)), l, which);
        && r == (if i < |l| then Found(l[i], Statuses(old(procs))[l[i]].code)
                 else if exists j :: 0 <= j < |l| && Matches(l[j], which) then Block else NoChild)
        && (i == |l| ==> procs == old(procs) && kids == old(kids))
        && (i < |l| ==> Statuses(procs) == Statuses(old(procs)) - {l[i]})
        && (i < |l| ==> kids - {l[i]} == old(kids)[p := l[..i] + l[i+1..]] - {l[i]})
      ensures procs.Keys <= old(procs).Keys
    {
      hide TreeX, FirstZombie;
      TreeFacts();
      var prev, iter, i := Scan(p, which);
      if iter == 0 {
        var some := AnyMatch(p, which);
        return if some then Block else NoChild;
      }
      var code := procs[iter].status.code;
      Reap(p, prev, iter, i);
      r := Found(iter, code);
    }

    /** Takes a zombie off the list, marks it as reaped and gives up the reference of the tree. */
    method Reap(p: nat, prev: nat, iter: nat, ghost i: nat)
      requires Valid() && p in procs && p in kids && i < |kids[p]| && kids[p][i] == iter && prev == At(kids[p], i - 1)
      requires iter in procs && procs[iter].status.Zombie?
      modifies this
      ensures Valid() && handles == old(handles) && (iter in procs ==> procs[iter].status == Dead)
      ensures kids - {iter} == old(kids)[p := old(kids)[p][..i] + old(kids)[p][i+1..]] - {iter}
      ensures Statuses(procs) == Statuses(old(procs)) - {iter} && procs.Keys <= old(procs).Keys
    {
      hide TreeX, RefsOk, Statuses;
      ReapFacts(procs, kids, handles, init, p, i);
      ReapOk(procs, kids, handles, init, p, i);
      ReapedStatuses(procs, p, prev, iter);
      ghost var procs0 := procs;
      if prev != 0 {
        procs := procs[prev := procs[prev].(next := procs[iter].next)];
      } else {
        procs := procs[p := procs[p].(children := procs[iter].next)];
      }
      procs := procs[iter := procs[iter].(status := Dead)];
      kids := kids[p := kids[p][..i] + kids[p][i+1..]];
      handles := handles + multiset{iter};
      assert procs == Reaped(procs0, p, prev, iter);
      DeadStatuses(procs, iter);
      Unref(iter);
    }

    /** The search of proc_wait. */
    method Scan(p: nat, which: int) returns (prev: nat, iter: nat, ghost i: nat)
      requires Valid() && p in procs && p in kids
      ensures i == FirstZombie(Statuses(procs), kids[p], which) && iter == At(kids[p], i) && prev == At(kids[p], i - 1)
      ensures iter == 0 <==> i == |kids[p]|
      ensures iter != 0 ==> iter in procs && procs[iter].status.Zombie?
    {
      ghost var l := kids[p];
      Listed(p);
      hide TreeX;
      prev, iter, i := 0, procs[p].children, 0;
      while iter != 0
        invariant i <= |l| && iter == At(l, i) && prev == At(l, i - 1)
        invariant forall j :: 0 <= j < i ==> !ZombieAsked(Statuses(procs), l[j], which)
        decreases |l| - i
      {
        assert SiblingLinked(procs, l, i);
        if Matches(iter, which) && procs[iter].status.Zombie? {
          FirstZombieIs(Statuses(procs), l, which, i);
          return;
        }
        prev, iter, i := iter, procs[iter].next, i + 1;
      }
      assert i < |l| ==> SiblingLinked(procs, l, i);
      FirstZombieIs(Statuses(procs), l, which, i);
    }

    lemma Listed(p: nat)
      requires Valid() && p in procs && p in kids
      ensures ListOk(procs, procs[p].children, kids[p])
    {
      assert KidsOk(procs, p, procs[p].children, kids[p]);
    }

    method AnyMatch(p: nat, which: int) returns (some: bool)
      requires Valid() && p in procs && p in kids
      ensures some <==> exists j :: 0 <= j < |kids[p]| && Matches(kids[p][j], which)
    {
      ghost var l, i := kids[p], 0;
      Listed(p);
      hide TreeX;
      var iter := procs[p].children;
      while iter != 0
        invariant i <= |l| && iter == At(l, i) && forall j :: 0 <= j < i ==> !Matches(l[j], which)
        decreases |l| - i
      {
        assert SiblingLinked(procs, l, i);
        if Matches(iter, which) {
          return true;
        }
        iter, i := procs[iter].next, i + 1;
      }
      assert i < |l| ==> SiblingLinked(procs, l, i);
      return false;
    }

    method Ref(c: nat)
      requires Valid() && c in procs
      modifies this`procs, this`handles
      ensures Valid() && handles == old(handles) + multiset{c} && kids == old(kids)
      ensures procs == old(procs)[c := old(procs)[c].(refcount := old(procs)[c].refcount + 1)]
    {
      hide TreeX;
      HoldOk(procs, kids, handles, init, c);
      procs := procs[c := procs[c].(refcount := procs[c].refcount + 1)];
      handles := handles + multiset{c};
    }

    /** proc_unref: a process goes exactly when it has been reaped and no handle is left. */
    method Unref(c: nat)
      requires Valid() && c in handles
      modifies this
      ensures Valid() && handles == old(handles) - multiset{c}
      ensures c in old(procs) && (c !in procs <==> old(procs)[c].status == Dead && handles[c] == 0)
      ensures procs == Dereferenced(old(procs), c) && kids == if c in procs then old(kids) else old(kids) - {c}
    {
      hide TreeX, ProcTable.Valid;
      Counted(c);
      if procs[c].refcount > 1 {
        Drop(c);
      } else {
        Free(c);
      }
    }

    method Drop(c: nat)
      requires Valid() && c in handles && c in procs && procs[c].refcount > 1
      modifies this`procs, this`handles
      ensures Valid() && handles == old(handles) - multiset{c} && procs == Dereferenced(old(procs), c)
    {
      hide TreeX;
      Recounted(procs, kids, handles, init, c, procs[c].refcount - 1, handles - multiset{c});
      procs := procs[c := procs[c].(refcount := procs[c].refcount - 1)];
      handles := handles - multiset{c};
    }

    method Free(c: nat)
      requires Valid() && c in handles && c in procs && procs[c].refcount == 1
      modifies this
      ensures Valid() && handles == old(handles) - multiset{c} && procs == old(procs) - {c} && kids == old(kids) - {c}
      ensures old(procs)[c].status == Dead
    {
      hide TreeX;
      FreeOk(procs, kids, handles, init, c);
      procs, kids, handles := procs - {c}, kids - {c}, handles - multiset{c};
    }

    // ---- whole runs

    /** What the callers see of the tree. */
    ghost function Abs(used: set<nat>): View
      reads this
    {
      View(Statuses(procs), Visible(kids, Statuses(procs)), used)
    }

    method Perform(op: Op, used: set<nat>) returns (r: Result, used': set<nat>)
      requires Valid() && procs.Keys <= used
      modifies this
      ensures Valid() && handles == old(handles) && procs.Keys <= used'
      ensures (Abs(used'), r) == StepView(old(Abs(used)), init, op)
      ensures Promised(old(Abs(used)), init, op, Abs(used'), r)
    {
      StepPromised(Abs(used), init, op);
      hide TreeX, ForkView, ExitView, WaitView, Promised;
      used' := used;
      match op
      case ForkOp(p, c) => r, used' := TryFork(p, c, used);
      case ExitOp(p, code) => r := TryExit(p, code, used);
      case WaitOp(p, which) => r := TryWait(p, which, used);
    }

    method TryFork(p: nat, c: nat, used: set<nat>) returns (r: Result, used': set<nat>)
      requires Valid() && procs.Keys <= used
      modifies this
      ensures Valid() && handles == old(handles) && procs.Keys <= used'
      ensures (Abs(used'), r) == ForkView(old(Abs(used)), p, c)
    {
      hide TreeX;
      TreeFacts();
      if !(p in procs && procs[p].status == Running && c != 0 && c !in used) {
        return Refused, used;
      }
      ghost var v := Abs(used);
      Fork(p, c);
      used', r := used + {c}, Forked(c);
      assert Statuses(procs) == v.status[c := Running];
      assert Abs(used').kids == v.kids[c := []][p := [c] + v.kids[p]];
    }

    method TryExit(p: nat, code: int, used: set<nat>) returns (r: Result)
      requires Valid() && procs.Keys <= used
      modifies this
      ensures Valid() && handles == old(handles) && procs.Keys <= used
      ensures (Abs(used), r) == ExitView(old(Abs(used)), init, p, code)
    {
      hide TreeX, Onto;
      TreeFacts();
      if !(p in procs && procs[p].status != Dead && p != init) {
        return Refused;
      }
      ghost var v := Abs(used);
      Exit(p, code);
      r := Exited;
      assert Statuses(procs) == if v.status[p] == Running then v.status[p := Zombie(code)] else v.status;
      assert Abs(used).kids == if v.status[p] == Running then v.kids[p := []][init := Onto(v.kids[p], v.kids[init])]
        else v.kids;
    }

    method TryWait(p: nat, which: int, used: set<nat>) returns (r: Result)
      requires Valid() && procs.Keys <= used
      modifies this
      ensures Valid() && handles == old(handles) && procs.Keys <= used
      ensures (Abs(used), r) == WaitView(old(Abs(used)), p, which)
    {
      hide TreeX, FirstZombie, Statuses;
      TreeFacts();
      StatusIs(procs, p);
      if !(p in procs && procs[p].status != Dead) {
        return Refused;
      }
      ghost var v, l, kids0 := Abs(used), kids[p], kids;
      ghost var i := FirstZombie(v.status, l, which);
      var w := Wait(p, which);
      if i < |l| {
        VisibleWithout(kids0, kids, v.status, p, l[i], l[..i] + l[i+1..]);
      }
      r := Waited(w);
    }

    /** Any run, with process numbers not used again: the callers see exactly what the calls mean. */
    method Run(ops: seq<Op>, used0: set<nat>) returns (results: seq<Result>, used: set<nat>)
      requires Valid() && procs.Keys <= used0
      modifies this
      ensures Valid() && handles == old(handles) && (Abs(used), results) == RunView(old(Abs(used0)), init, ops)
      ensures NoDuplicates(ReapedBy(results)) && Statuses(procs).Keys !! Members(ReapedBy(results))
      ensures Statuses(procs).Keys + Members(ReapedBy(results))
        == Statuses(old(procs)).Keys + Members(ForkedBy(results))
    {
      hide TreeX, StepView, NoDuplicates;
      ghost var v := Abs(used0);
      results, used := [], used0;
      for i := 0 to |ops|
        invariant Valid() && handles == old(handles) && procs.Keys <= used
        invariant (Abs(used), results) == RunView(v, init, ops[..i])
      {
        RunMore(v, init, ops[..i], ops[i]);
        assert ops[..i+1] == ops[..i] + [ops[i]];
        var r;
        r, used := Perform(ops[i], used);
        results := results + [r];
      }
      assert ops[..|ops|] == ops;
      RunConserves(v, init, ops);
    }

    lemma Counted(c: nat)
      requires Valid() && c in handles
      ensures c in procs && RefsOk(procs, c, handles)
    {
    }
  }

  lemma {:induction false} FirstZombieIs(status: map<nat, Status>, l: seq<nat>, which: int, i: nat)
    requires i <= |l| && (i < |l| ==> ZombieAsked(status, l[i], which))
    requires forall j :: 0 <= j < i ==> !ZombieAsked(status, l[j], which)
    ensures FirstZombie(status, l, which) == i
  {
  }
}
