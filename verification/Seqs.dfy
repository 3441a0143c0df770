/** Sequences of numbers as the kernel's linked lists, with 0 for the null link. */
module Seqs {

  ghost predicate NoDuplicates(q: seq<nat>) {
    forall i, j :: 0 <= i < j < |q| ==> q[i] != q[j]
  }

  function Members(q: seq<nat>): set<nat> {
    set x | x in q
  }

  /** The element at a position, 0 beyond the ends. */
  function At(q: seq<nat>, i: int): nat {
    if 0 <= i < |q| then q[i] else 0
  }

  /** Taking one element out of a list without duplicates. */
  lemma CutMembers(l: seq<nat>, i: nat)
    requires NoDuplicates(l) && i < |l|
    ensures NoDuplicates(l[..i] + l[i+1..])
    ensures forall q :: q in l[..i] + l[i+1..] <==> q in l && q != l[i]
  {
    var l' := l[..i] + l[i+1..];
    assert forall j :: 0 <= j < |l'| ==> l'[j] == l[if j < i then j else j + 1];
    forall q | q in l && q != l[i] ensures q in l' {
      var j :| 0 <= j < |l| && l[j] == q;
      assert l'[if j < i then j else j - 1] == q;
    }
  }

  /** A list without the first occurrence of an element. */
  function Without(q: seq<nat>, x: nat): seq<nat> {
    if q == [] then [] else if q[0] == x then q[1..] else [q[0]] + Without(q[1..], x)
  }

  lemma {:induction false} WithoutIndex(q: seq<nat>, k: nat)
    requires k < |q| && NoDuplicates(q)
    ensures Without(q, q[k]) == q[..k] + q[k+1..]
  {
    if k == 0 {
      assert q[..0] + q[1..] == q[1..];
    } else {
      WithoutIndex(q[1..], k - 1);
      assert [q[0]] + (q[1..][..k-1] + q[1..][k..]) == q[..k] + q[k+1..];
    }
  }

  /** Taking an element out removes it, keeps every other one and keeps their order. */
  lemma WithoutMembers(q: seq<nat>, x: nat)
    requires NoDuplicates(q) && x in q
    ensures NoDuplicates(Without(q, x))
    ensures |Without(q, x)| == |q| - 1
    ensures forall y :: y in Without(q, x) <==> y in q && y != x
  {
    var k :| 0 <= k < |q| && q[k] == x;
    WithoutIndex(q, k);
    forall y | y in q && y != x ensures y in q[..k] + q[k+1..] {
      var j :| 0 <= j < |q| && q[j] == y;
      if j < k { assert q[..k][j] == y; } else { assert q[k+1..][j-k-1] == y; }
    }
  }

  lemma {:induction false} DistinctSize(q: seq<nat>)
    requires NoDuplicates(q)
    ensures |Members(q)| == |q|
  {
    if q == [] {
      assert Members(q) == {};
    } else {
      var front, last := q[..|q|-1], q[|q|-1];
      DistinctSize(front);
      assert q == front + [last];
      assert Members(q) == Members(front) + {last};
    }
  }

  lemma SetSize(a: set<nat>, b: set<nat>)
    requires a <= b
    ensures |a| <= |b|
  {
    assert b == a + (b - a);
  }

  /** The numbers of a run. */
  function Span(p: nat, n: nat): (r: set<nat>)
    ensures |r| == n && forall x :: x in r <==> p <= x < p + n
  {
    if n == 0 then {} else Span(p, n - 1) + {p + n - 1}
  }

  /** A list whose elements are those of another and of a set apart from it. */
  lemma PartSizes(a: seq<nat>, b: seq<nat>, c: set<nat>)
    requires NoDuplicates(a) && NoDuplicates(b) && (forall x :: x in a <==> x in b || x in c)
    requires forall x :: !(x in b && x in c)
    ensures |a| == |b| + |c|
  {
    DistinctSize(a);
    DistinctSize(b);
    assert Members(a) == Members(b) + c && Members(b) !! c;
  }
}
