/** The areas of one address space where kernel/src/mm/vmm.c keeps them: in a red-black tree ordered by base. Every
    operation does to the tree what its counterpart in Vmas does to the sequence of areas. */
module AreaTrees {
  import opened RedBlack
  import opened RbTrees
  import Vmas

  datatype Status = Success | Invalid

  ghost function AreaOf(n: Node): Vmas.Vma
    reads n`size, n`flags
  {
    Vmas.Vma(n.base, n.size, n.flags)
  }

  ghost function AreasOf(s: seq<Node>): (vs: seq<Vmas.Vma>)
    reads s`size, s`flags
    ensures |vs| == |s| && forall i :: 0 <= i < |s| ==> vs[i] == AreaOf(s[i])
  {
    if s == [] then [] else [AreaOf(s[0])] + AreasOf(s[1..])
  }

  lemma AreasAre(c: seq<Node>, vs: seq<Vmas.Vma>)
    requires |c| == |vs| && forall i :: 0 <= i < |c| ==> vs[i] == AreaOf(c[i])
    ensures AreasOf(c) == vs
  {
    hide AreasOf;
  }

  lemma Others(c: seq<Node>, i: nat)
    requires RedBlack.Sorted(c) && i < |c|
    ensures forall j :: 0 <= j < |c| && j != i ==> c[j] != c[i]
  {
  }

  /** The new half of a split comes right after the old one. */
  lemma SplitPlace(vs: seq<Vmas.Vma>, i: nat, addr: nat)
    requires Vmas.Good(vs) && i < |vs| && vs[i].base < addr < vs[i].End()
    ensures Vmas.LowerBound(vs[i := Vmas.Vma(vs[i].base, addr - vs[i].base, vs[i].flags)], addr) == i + 1
  {
    Vmas.GoodSorted(vs);
    if i + 1 < |vs| { assert vs[i].Below(vs[i+1]); }
    Vmas.LowerBoundIs(vs[i := Vmas.Vma(vs[i].base, addr - vs[i].base, vs[i].flags)], addr, i + 1);
  }

  lemma AreasJoin(a: seq<Node>, b: seq<Node>)
    ensures AreasOf(a + b) == AreasOf(a) + AreasOf(b)
  {
    hide AreasOf;
    assert forall i :: 0 <= i < |a| ==> (a + b)[i] == a[i];
    assert forall i :: 0 <= i < |b| ==> (a + b)[|a| + i] == b[i];
  }

  lemma AreasCut(c: seq<Node>, j: nat)
    requires j <= |c|
    ensures AreasOf(c[..j]) == AreasOf(c)[..j] && AreasOf(c[j..]) == AreasOf(c)[j..]
  {
    hide AreasOf;
  }

  lemma AreasSingle(n: Node)
    ensures AreasOf([n]) == [AreaOf(n)]
  {
  }

  /** A node put at its place in the order is an area put at its place. */
  lemma InsertedAreas(c: seq<Node>, j: nat, n: Node)
    requires j <= |c| && RedBlack.Sorted(c[..j] + [n] + c[j..])
    ensures AreasOf(c[..j] + [n] + c[j..]) == Vmas.Insert(AreasOf(c), AreaOf(n))
    ensures Vmas.LowerBound(AreasOf(c), n.base) == j
  {
    hide AreasOf, Vmas.LowerBound, RedBlack.Sorted;
    PlaceIs(c, j, n);
    Vmas.LowerBoundIs(AreasOf(c), n.base, j);
    AreasCut(c, j);
    AreasSingle(n);
    AreasJoin(c[..j] + [n], c[j..]);
    AreasJoin(c[..j], [n]);
  }

  lemma PlaceIs(c: seq<Node>, j: nat, n: Node)
    requires j <= |c| && RedBlack.Sorted(c[..j] + [n] + c[j..])
    ensures (forall i :: 0 <= i < j ==> c[i].base < n.base) && (j < |c| ==> n.base < c[j].base)
  {
    var s := c[..j] + [n] + c[j..];
    assert forall i :: 0 <= i < j ==> s[i] == c[i];
    assert s[j] == n;
    assert j < |c| ==> s[j+1] == c[j];
  }

  lemma CutAreas(c: seq<Node>, i: nat)
    requires i < |c|
    ensures AreasOf(Cut(c, i)) == Vmas.DropAt(AreasOf(c), i)
  {
    hide AreasOf;
    AreasCut(c, i);
    AreasCut(c, i + 1);
    AreasJoin(c[..i], c[i+1..]);
  }

  /** One turn of the gap search. */
  lemma GapStep(vs: seq<Vmas.Vma>, hint: nat, size: nat)
    requires size > 0 && hint >= Vmas.USER_START + size
    ensures var c := Vmas.AlignDown(hint - size);
      if c < Vmas.USER_START then Vmas.Gap(vs, hint, size) == 0
      else var o := Vmas.Obstacle(vs, c, size);
        if o < 0 then Vmas.Gap(vs, hint, size) == c
        else vs[o].base < hint && Vmas.Gap(vs, hint, size) == Vmas.Gap(vs, vs[o].base, size)
  {
  }

  predicate Within(v: Vmas.Vma, base: nat, end: nat) {
    base <= v.base && v.End() <= end
  }

  lemma DropFirst(kept: seq<Vmas.Vma>, rest: seq<Vmas.Vma>)
    requires |rest| > 0
    ensures Vmas.DropAt(kept + rest, |kept|) == kept + rest[1..]
  {
  }

  lemma SweepStep(kept: seq<Vmas.Vma>, rest: seq<Vmas.Vma>, base: nat, end: nat)
    requires Vmas.Good(rest) && |rest| > 0
    ensures Vmas.Good(rest[1..])
    ensures !Within(rest[0], base, end) && rest[0].base >= end ==> Vmas.RemoveWithin(rest, base, end) == rest
    ensures kept + Vmas.RemoveWithin(rest, base, end)
         == (if Within(rest[0], base, end) then kept else kept + [rest[0]]) + Vmas.RemoveWithin(rest[1..], base, end)
  {
    hide Vmas.RemoveWithin, Vmas.Good;
    TailGood(rest, 1);
    RemoveHead(rest, base, end);
    if rest[0].base >= end {
      Vmas.RemoveWithinBeyond(rest, base, end);
    }
  }

  lemma RemoveHead(rest: seq<Vmas.Vma>, base: nat, end: nat)
    requires |rest| > 0
    ensures Vmas.RemoveWithin(rest, base, end) ==
      (if Within(rest[0], base, end) then [] else [rest[0]]) + Vmas.RemoveWithin(rest[1..], base, end)
  {
  }

  lemma SweepEnd(base: nat, end: nat)
    ensures Vmas.RemoveWithin([], base, end) == []
  {
  }

  lemma TailGood(vs: seq<Vmas.Vma>, p: nat)
    requires Vmas.Good(vs) && p <= |vs|
    ensures Vmas.Good(vs[p..])
  {
    forall i, j | 0 <= i < j < |vs| - p ensures vs[p..][i].Below(vs[p..][j]) { assert vs[p+i].Below(vs[p+j]); }
    forall i | 0 <= i < |vs| - p ensures vs[p..][i].Shaped() { assert vs[p+i].Shaped(); }
  }

  /** After a split the upper half is what a search for its base finds. */
  lemma SplitFinds(vs: seq<Vmas.Vma>, f: nat, addr: nat)
    requires Vmas.Good(vs) && f < |vs| && vs[f].base < addr < vs[f].End() && addr % Vmas.PAGE == 0
    ensures var ws := Vmas.Split(vs, f, addr);
      Vmas.Find(ws, addr) == f + 1 && ws[f+1].base == addr && ws[f+1].End() == vs[f].End()
  {
    hide Vmas.Find;
    Vmas.SplitGood(vs, f, addr);
    Vmas.SplitAt(vs, f, addr, f + 1);
    Vmas.FindExact(Vmas.Split(vs, f, addr), addr);
  }

  datatype Target = Refused | Accepted(base: nat)

  /** Where vmm_map puts a new area: in the highest gap, or where it is told to. */
  function Place(vs: seq<Vmas.Vma>, mmapBase: nat, base: nat, size: nat, flags: bv32): Target {
    if size == 0 then Refused
    else if base == 0 && !Vmas.Has(flags, Vmas.FIXED) then
      var gap := Vmas.Gap(vs, mmapBase, Vmas.AlignUp(size)); if gap == 0 then Refused else Accepted(gap)
    else if Vmas.Has(flags, Vmas.FIXED) && Vmas.Find(vs, Vmas.AlignDown(base)) >= 0 then Refused
    else Accepted(Vmas.AlignDown(base))
  }

  /** The flags of an area once its pages have been allocated, which vmm_map does unless it is lazy. */
  function AreaFlags(flags: bv32): bv32 {
    if Vmas.Has(flags, Vmas.LAZY) then flags else flags | Vmas.ALLOCATED
  }

  /** A map that lets the kernel choose the place keeps the areas apart. */
  lemma AnonymousMapApart(vs: seq<Vmas.Vma>, mmapBase: nat, size: nat, flags: bv32)
    requires Vmas.Good(vs) && !Vmas.Has(flags, Vmas.FIXED) && Place(vs, mmapBase, 0, size, flags).Accepted?
    ensures var at := Place(vs, mmapBase, 0, size, flags).base;
      !Vmas.Taken(vs, at) && Vmas.Good(Vmas.Insert(vs, Vmas.Vma(at, Vmas.AlignUp(size), AreaFlags(flags))))
  {
    hide Vmas.Good, Vmas.Gap, Vmas.Insert, Vmas.Taken, Vmas.AlignUp, Vmas.Has, AreaFlags, Vmas.RangeFree;
    var n := Vmas.AlignUp(size);
    Vmas.GapIsHighest(vs, mmapBase, n);
    var at := Vmas.Gap(vs, mmapBase, n);
    Vmas.RoomNotTaken(vs, at, at + n);
    Vmas.InsertGood(vs, Vmas.Vma(at, n, AreaFlags(flags)));
  }

  /** The areas after vmm_map: rb_insert refuses a base that an area has already. */
  function Mapping(vs: seq<Vmas.Vma>, mmapBase: nat, base: nat, size: nat, flags: bv32): seq<Vmas.Vma> {
    var at := Place(vs, mmapBase, base, size, flags);
    if at.Accepted? && !Vmas.Taken(vs, at.base)
      then Vmas.Insert(vs, Vmas.Vma(at.base, Vmas.AlignUp(size), AreaFlags(flags)))
    else vs
  }

  /** Bit by bit: an area is marked allocated unless it is lazy, and has the flags asked for otherwise. */
  ghost predicate AllocatedUnlessLazy(flags: bv32, f: bv32) {
    forall m: bv32 :: Vmas.SingleBit(m) ==>
      (Vmas.Has(f, m) <==> Vmas.Has(flags, m) || (m == Vmas.ALLOCATED && !Vmas.Has(flags, Vmas.LAZY)))
  }

  /** One area more, and nothing else. */
  ghost predicate AddsOne(vs: seq<Vmas.Vma>, ws: seq<Vmas.Vma>, at: nat, size: nat, flags: bv32) {
    exists f: bv32 :: AllocatedUnlessLazy(flags, f) && multiset(ws) == multiset(vs) + multiset{Vmas.Vma(at, size, f)}
  }

  ghost predicate Highest(vs: seq<Vmas.Vma>, hint: nat, size: nat, at: nat) {
    Vmas.Window(vs, hint, size, at) && forall w: nat :: Vmas.Window(vs, hint, size, w) ==> w <= at
  }

  /** What vmm_map does to the areas: with no address it adds one in the highest window if there is one, and with an
      address there, unless it must stay clear of the area that covers the address or one begins there. */
  lemma MapMeans(vs: seq<Vmas.Vma>, mmapBase: nat, base: nat, size: nat, flags: bv32)
    requires Vmas.Good(vs)
    ensures var ws, at, n := Mapping(vs, mmapBase, base, size, flags), Vmas.AlignDown(base), Vmas.AlignUp(size);
      if size == 0 then ws == vs
      else if base == 0 && flags & 128 == 0 then
        if exists w: nat :: Vmas.Window(vs, mmapBase, n, w)
        then exists w: nat :: Highest(vs, mmapBase, n, w) && AddsOne(vs, ws, w, n, flags)
        else ws == vs
      else if (flags & 128 != 0 && Vmas.Mapped(vs, at)) || exists i :: 0 <= i < |vs| && vs[i].base == at then ws == vs
      else AddsOne(vs, ws, at, n, flags)
  {
    hide AddsOne, Highest, Vmas.AlignDown, Vmas.AlignUp, Vmas.Good, Vmas.Insert, Vmas.Window, Vmas.Mapped, Vmas.Taken,
         Vmas.Find, Vmas.Gap, AreaFlags;
    var at, n := Vmas.AlignDown(base), Vmas.AlignUp(size);
    if size > 0 {
      if base == 0 && !Vmas.Has(flags, Vmas.FIXED) {
        MapAnywhere(vs, mmapBase, n, flags);
      } else {
        Vmas.TakenExact(vs, at);
        Vmas.FindExact(vs, at);
        AddsArea(vs, at, n, flags);
      }
    }
  }

  lemma AddsArea(vs: seq<Vmas.Vma>, at: nat, n: nat, flags: bv32)
    ensures AddsOne(vs, Vmas.Insert(vs, Vmas.Vma(at, n, AreaFlags(flags))), at, n, flags)
  {
    hide AllocatedUnlessLazy, AreaFlags;
    AreaFlagsBits(flags);
    Vmas.InsertAdds(vs, Vmas.Vma(at, n, AreaFlags(flags)));
  }

  lemma MapAnywhere(vs: seq<Vmas.Vma>, mmapBase: nat, n: nat, flags: bv32)
    requires Vmas.Good(vs) && n > 0
    ensures var gap := Vmas.Gap(vs, mmapBase, n); var ws := Vmas.Insert(vs, Vmas.Vma(gap, n, AreaFlags(flags)));
      if gap == 0 then forall w: nat :: !Vmas.Window(vs, mmapBase, n, w)
      else && !Vmas.Taken(vs, gap) && Vmas.Window(vs, mmapBase, n, gap)
           && Highest(vs, mmapBase, n, gap) && AddsOne(vs, ws, gap, n, flags)
  {
    hide AddsOne, AreaFlags, Vmas.Good, Vmas.Insert, Vmas.Taken, Vmas.Gap;
    var gap := Vmas.Gap(vs, mmapBase, n);
    Vmas.GapIsHighest(vs, mmapBase, n);
    AddsArea(vs, gap, n, flags);
    if gap != 0 { Vmas.RoomNotTaken(vs, gap, gap + n); }
  }

  lemma AreaFlagsBits(flags: bv32)
    ensures AllocatedUnlessLazy(flags, AreaFlags(flags))
  {
    forall m: bv32 | Vmas.SingleBit(m)
      ensures Vmas.Has(AreaFlags(flags), m) <==>
        Vmas.Has(flags, m) || (m == Vmas.ALLOCATED && !Vmas.Has(flags, Vmas.LAZY))
    {
      hide AreaFlags, Vmas.Has, Vmas.SingleBit;
      AreaFlagsBit(flags, m);
    }
  }

  lemma AreaFlagsBit(flags: bv32, m: bv32)
    requires Vmas.SingleBit(m)
    ensures Vmas.Has(AreaFlags(flags), m) <==>
      Vmas.Has(flags, m) || (m == Vmas.ALLOCATED && !Vmas.Has(flags, Vmas.LAZY))
  {
    Vmas.PreservedBits(m);
  }

  /** A fixed map that passes the overlap test keeps the areas apart exactly when no area begins inside it. */
  lemma FixedMapExact(vs: seq<Vmas.Vma>, v: Vmas.Vma)
    requires Vmas.Good(vs) && v.Shaped() && Vmas.Find(vs, v.base) < 0
    ensures !Vmas.Taken(vs, v.base)
    ensures Vmas.Apart(Vmas.Insert(vs, v)) <==> forall i :: 0 <= i < |vs| ==> !(v.base < vs[i].base < v.End())
  {
    Vmas.FindExact(vs, v.base);
    var k := Vmas.LowerBound(vs, v.base);
    if k < |vs| { assert vs[k].Shaped() && !vs[k].Contains(v.base); }
    Vmas.InsertApart(vs, v);
    forall i | 0 <= i < |vs| ensures !(v.base < vs[i].base < v.End()) <==>
      vs[i].End() <= v.base || v.End() <= vs[i].base {
      assert vs[i].Shaped() && !vs[i].Contains(v.base);
    }
  }

  /** A fixed map can pass the overlap test and yet overlap. */
  lemma FixedMapMayOverlap()
    ensures var vs, v := [Vmas.Vma(0x5000, 0x1000, Vmas.USER)], Vmas.Vma(0x4000, 0x2000, Vmas.USER | Vmas.FIXED);
      Vmas.Good(vs) && Vmas.Find(vs, v.base) < 0 && !Vmas.Apart(Vmas.Insert(vs, v))
  {
    var vs, v := [Vmas.Vma(0x5000, 0x1000, Vmas.USER)], Vmas.Vma(0x4000, 0x2000, Vmas.USER | Vmas.FIXED);
    assert Vmas.LowerBound(vs, 0x4000) == 0;
    var ws := Vmas.Insert(vs, v);
    assert ws[0] == v && ws[1] == vs[0];
    assert !ws[0].Below(ws[1]);
  }

  /** A hint that is not zero is taken without a test: the areas stay apart exactly when the range was free, or when an
      area begins where the hint points and the map is refused. */
  lemma HintedMapExact(vs: seq<Vmas.Vma>, mmapBase: nat, base: nat, size: nat, flags: bv32)
    requires Vmas.Good(vs) && base > 0 && size > 0 && !Vmas.Has(flags, Vmas.FIXED)
    ensures var at, n := Vmas.AlignDown(base), Vmas.AlignUp(size);
      Vmas.Apart(Mapping(vs, mmapBase, base, size, flags)) <==> Vmas.Taken(vs, at) || Vmas.RangeFree(vs, at, at + n)
  {
    hide Vmas.Has, AreaFlags, Vmas.Insert, Vmas.Taken, Vmas.LowerBound, Vmas.AlignDown, Vmas.AlignUp;
    var v := Vmas.Vma(Vmas.AlignDown(base), Vmas.AlignUp(size), AreaFlags(flags));
    if !Vmas.Taken(vs, v.base) { Vmas.InsertApart(vs, v); }
  }

  /** A hint just below an area, for more than fits: the map is made and overlaps. */
  lemma HintedMapMayOverlap()
    ensures var vs := [Vmas.Vma(0x5000, 0x1000, Vmas.USER)];
      Vmas.Good(vs) && !Vmas.Apart(Mapping(vs, 0, 0x4000, 0x2000, Vmas.USER))
  {
    var vs := [Vmas.Vma(0x5000, 0x1000, Vmas.USER)];
    assert vs[0].base == 0x5000 && vs[0].End() == 0x6000;
    assert !Vmas.RangeFree(vs, 0x4000, 0x6000) by { assert 0x4000 < vs[0].End() && vs[0].base < 0x6000; }
    assert !Vmas.Taken(vs, 0x4000) by { assert Vmas.LowerBound(vs, 0x4000) == 0; }
    HintedMapExact(vs, 0, 0x4000, 0x2000, Vmas.USER);
  }

  lemma NoGap(vs: seq<Vmas.Vma>, hint: nat, size: nat)
    requires size > 0 && hint < Vmas.USER_START + size
    ensures Vmas.Gap(vs, hint, size) == 0
  {
  }

  class AreaTree {
    const vmas: RbTree
    var mmapBase: nat
    var vmasCount: nat

    ghost predicate Valid()
      reads this`vmasCount, vmas, vmas.nodes`parent, vmas.nodes`left, vmas.nodes`right, vmas.nodes`color
    {
      vmas.Valid() && vmasCount == vmas.size
    }

    /** The areas in the order of their bases. */
    ghost function Areas(): (vs: seq<Vmas.Vma>)
      requires Valid()
      reads this`vmasCount, vmas, vmas.nodes
    {
      vmas.InContents();
      AreasOf(vmas.Contents())
    }

    constructor (mmapBase: nat)
      ensures Valid() && Areas() == [] && this.mmapBase == mmapBase && fresh(vmas)
    {
      var t := new RbTree();
      this.vmas, this.mmapBase, vmasCount := t, mmapBase, 0;
    }

    lemma AreaAt()
      requires Valid()
      ensures |Areas()| == |vmas.Contents()|
      ensures forall i :: 0 <= i < |vmas.Contents()| ==> Areas()[i] == AreaOf(vmas.Contents()[i])
    {
    }

    lemma BoundIs(i: nat, addr: nat)
      requires Valid() && SplitsAt(vmas.Contents(), i, addr, true)
      ensures Vmas.LowerBound(Areas(), addr) == i
    {
      Vmas.LowerBoundIs(Areas(), addr, i);
    }

    static predicate Holds(v: Node, addr: nat)
      reads v`size
    {
      v.base <= addr < v.base + v.size
    }

    /** _find_vma */
    method FindVma(addr: nat) returns (v: Node?, ghost i: int)
      requires Valid()
      ensures i == Vmas.Find(Areas(), addr) && v == At(vmas.Contents(), i)
    {
      hide RbTree.Valid, InOrder, SplitsAt, RedBlack.Sorted, AreaTree.Areas, Vmas.LowerBound;
      var node, k := vmas.LowerBound(addr);
      AreaAt();
      BoundIs(k, addr);
      vmas.InContents();
      if node != null {
        if Holds(node, addr) {
          return node, k;
        }
        var prev, j := vmas.Prev(node);
        AreaAt();
        Unique(vmas.Contents(), k, j);
        if prev != null && Holds(prev, addr) {
          return prev, k - 1;
        }
      } else {
        var last := vmas.Last();
        AreaAt();
        if last != null && Holds(last, addr) {
          return last, k - 1;
        }
      }
      return null, -1;
    }

    /** _find_vma_next */
    method FindVmaNext(addr: nat) returns (v: Node?)
      requires Valid()
      ensures v == At(vmas.Contents(), Vmas.LowerBound(Areas(), addr))
    {
      hide RbTree.Valid, InOrder, SplitsAt;
      var node, k := vmas.LowerBound(addr);
      BoundIs(k, addr);
      v := node;
    }

    /** The area in the way of `size` bytes at `c`, as _find_free_gap looks for it. */
    method FindObstacle(c: nat, size: nat) returns (v: Node?)
      requires Valid() && size > 0
      ensures v == At(vmas.Contents(), Vmas.Obstacle(Areas(), c, size))
    {
      hide RbTree.Valid, InOrder, Vmas.LowerBound, Vmas.Find, AreaTree.Areas;
      AreaAt();
      var overlap, i := FindVma(c);
      if overlap == null {
        overlap, i := FindVma(c + size - 1);
      }
      if overlap != null {
        return overlap;
      }
      var next := FindVmaNext(c);
      if next == null || next.base >= c + size {
        return null;
      }
      return next;
    }

    /** The loop of _find_free_gap: the hint falls at every turn. */
    method SearchGap(size: nat) returns (r: nat)
      requires Valid() && size > 0
      ensures r == Vmas.Gap(Areas(), mmapBase, size)
    {
      hide RbTree.Valid, InOrder, AreaTree.Areas, Vmas.AlignDown, Vmas.Obstacle, Vmas.Gap;
      AreaAt();
      var hint: nat := mmapBase;
      while hint >= Vmas.USER_START + size
        invariant Vmas.Gap(Areas(), hint, size) == Vmas.Gap(Areas(), mmapBase, size)
        decreases hint
      {
        GapStep(Areas(), hint, size);
        var candidate := Vmas.AlignDown(hint - size);
        if candidate < Vmas.USER_START {
          return 0;
        }
        var overlap := FindObstacle(candidate, size);
        if overlap == null {
          return candidate;
        }
        hint := overlap.base;
      }
      NoGap(Areas(), hint, size);
      return 0;
    }

    /** _find_free_gap */
    method FindFreeGap(size: nat) returns (r: nat)
      requires Valid() && size > 0
      modifies this`mmapBase
      ensures Valid() && r == Vmas.Gap(Areas(), old(mmapBase), size)
      ensures mmapBase == if r == 0 then old(mmapBase) else r
    {
      r := SearchGap(size);
      if r != 0 {
        mmapBase := r;
      }
    }

    /** rb_insert of a new area, and the count kept with it. */
    method AddArea(n: Node) returns (ok: bool, ghost j: nat)
      requires Valid() && n !in vmas.nodes
      modifies this`vmasCount, vmas, n`parent, n`left, n`right, n`color, vmas.nodes`parent, vmas.nodes`left,
        vmas.nodes`right, vmas.nodes`color
      ensures Valid() && (ok <==> !Vmas.Taken(old(Areas()), n.base)) && j == Vmas.LowerBound(old(Areas()), n.base)
      ensures vmas.nodes == if ok then old(vmas.nodes) + {n} else old(vmas.nodes)
      ensures ok ==> Areas() == Vmas.Insert(old(Areas()), AreaOf(n))
      ensures ok ==>
        j <= |old(vmas.Contents())| && vmas.Contents() == old(vmas.Contents())[..j] + [n] + old(vmas.Contents())[j..]
      ensures !ok ==> Areas() == old(Areas()) && vmas.Contents() == old(vmas.Contents())
    {
      hide RbTree.Valid, InOrder, Vmas.LowerBound, RedBlack.Sorted, AreasOf, Vmas.Taken, Vmas.Insert, AreaTree.Areas;
      ghost var c, vs := vmas.Contents(), Areas();
      Laid();
      TakenBy(n.base);
      var r;
      r, j := vmas.Insert(n);
      AreasAre(c, vs);
      ok := r == 0;
      if ok {
        vmasCount := vmasCount + 1;
        vmas.InContents();
        InsertedAreas(c, j, n);
      }
      j := Vmas.LowerBound(vs, n.base);
      AreasNow();
    }

    lemma AreasNow()
      requires Valid()
      ensures Areas() == AreasOf(vmas.Contents())
    {
    }

    /** What there is to know about the areas before the tree changes. */
    lemma Laid()
      requires Valid()
      ensures |Areas()| == |vmas.Contents()|
      ensures forall i :: 0 <= i < |vmas.Contents()| ==>
        vmas.Contents()[i] in vmas.nodes && Areas()[i] == AreaOf(vmas.Contents()[i])
    {
      vmas.InContents();
    }

    lemma TakenBy(base: nat)
      requires Valid()
      ensures Vmas.Taken(Areas(), base) <==> exists n :: n in vmas.Contents() && n.base == base
    {
      vmas.InContents();
      var k := Vmas.LowerBound(Areas(), base);
      var c := vmas.Contents();
      forall i | 0 <= i < |c| && c[i].base == base ensures k < |c| && Areas()[k].base == base {
        assert k <= i;
      }
    }

    /** Writing the size of one area. */
    method Resize(vma: Node, size: nat, ghost i: nat)
      requires Valid() && i < |vmas.Contents()| && vmas.Contents()[i] == vma
      modifies vma`size
      ensures Valid() && Areas() == old(Areas())[i := old(Areas())[i].(size := size)]
    {
      hide RbTree.Valid, InOrder, RedBlack.Sorted, AreasOf, AreaTree.Areas;
      Laid();
      vmas.InContents();
      ghost var c, vs := vmas.Contents(), Areas();
      vma.size := size;
      Others(c, i);
      AreasAre(c, vs[i := vs[i].(size := size)]);
      AreasNow();
    }

    /** Writing the flags of one area. */
    method Reflag(vma: Node, flags: bv32, ghost i: nat)
      requires Valid() && i < |vmas.Contents()| && vmas.Contents()[i] == vma
      modifies vma`flags
      ensures Valid() && Areas() == old(Areas())[i := old(Areas())[i].(flags := flags)]
    {
      hide RbTree.Valid, InOrder, RedBlack.Sorted, AreasOf, AreaTree.Areas;
      Laid();
      vmas.InContents();
      ghost var c, vs := vmas.Contents(), Areas();
      vma.flags := flags;
      Others(c, i);
      AreasAre(c, vs[i := vs[i].(flags := flags)]);
      AreasNow();
    }

    /** _vma_split: the area keeps what lies below `addr`, and a new one takes the rest. */
    method VmaSplit(vma: Node, addr: nat, ghost i: nat) returns (half: Node?)
      requires Valid() && Vmas.Good(Areas()) && i < |vmas.Contents()| && vmas.Contents()[i] == vma
      modifies this`vmasCount, vmas, vma`size, vmas.nodes`parent, vmas.nodes`left, vmas.nodes`right, vmas.nodes`color
      ensures Valid() && (half != null <==> old(Areas())[i].base < addr < old(Areas())[i].End())
      ensures half == null ==>
        Areas() == old(Areas()) && vmas.Contents() == old(vmas.Contents()) && vmas.nodes == old(vmas.nodes)
      ensures half != null ==>
        Areas() == Vmas.Split(old(Areas()), i, addr) && fresh(half) && vmas.nodes == old(vmas.nodes) + {half}
      ensures half != null ==> vmas.Contents() == old(vmas.Contents())[..i+1] + [half] + old(vmas.Contents())[i+1..]
    {
      hide RbTree.Valid, InOrder, RedBlack.Sorted, AreasOf, AreaTree.Areas, Vmas.Good, Vmas.LowerBound, Vmas.Insert,
           Vmas.Split;
      Laid();
      ghost var vs := Areas();
      if addr <= vma.base || addr >= vma.base + vma.size {
        return null;
      }
      var n := new Node(addr, vma.base + vma.size - addr, vma.flags);
      Resize(vma, addr - vma.base, i);
      Vmas.SplitInserts(vs, i, addr);
      SplitPlace(vs, i, addr);
      var ok, j := AddArea(n);
      half := n;
    }

    /** rb_next, rb_remove and the count: one area goes, and the successor saved before is the next one to visit. */
    method RemoveArea(vma: Node, ghost i: nat) returns (next: Node?)
      requires Valid() && i < |vmas.Contents()| && vmas.Contents()[i] == vma
      modifies this`vmasCount, vmas, vmas.nodes`parent, vmas.nodes`left, vmas.nodes`right, vmas.nodes`color
      ensures Valid() && vmas.nodes == old(vmas.nodes) - {vma}
      ensures Areas() == Vmas.DropAt(old(Areas()), i) && next == At(vmas.Contents(), i)
    {
      hide RbTree.Valid, InOrder, RedBlack.Sorted, AreasOf, AreaTree.Areas;
      Laid();
      vmas.SizeIs();
      ghost var c, vs := vmas.Contents(), Areas();
      next := vmas.RemoveVisited(vma, i);
      vmasCount := vmasCount - 1;
      AreasAre(c, vs);
      CutAreas(c, i);
      AreasNow();
    }

    /** One turn of the loop of vmm_unmap: `kept` has been passed, `rest` is still to be visited. */
    method SweepTurn(node: Node, base: nat, end: nat, ghost kept: seq<Vmas.Vma>, ghost rest: seq<Vmas.Vma>)
      returns (next: Node?, stop: bool, ghost kept': seq<Vmas.Vma>)
      requires Valid() && Areas() == kept + rest && node == At(vmas.Contents(), |kept|) && |rest| > 0
      modifies this`vmasCount, vmas, vmas.nodes`parent, vmas.nodes`left, vmas.nodes`right, vmas.nodes`color
      ensures Valid() && vmas.nodes <= old(vmas.nodes)
      ensures stop <==> !Within(rest[0], base, end) && rest[0].base >= end
      ensures stop ==> Areas() == kept + rest
      ensures !stop ==> kept' == if Within(rest[0], base, end) then kept else kept + [rest[0]]
      ensures !stop ==> Areas() == kept' + rest[1..] && next == At(vmas.Contents(), |kept'|)
    {
      hide RbTree.Valid, InOrder, RedBlack.Sorted, AreasOf, AreaTree.Areas;
      Laid();
      kept', stop, next := kept, false, null;
      assert (kept + rest)[|kept|] == rest[0];
      if node.base >= base && node.base + node.size <= end {
        DropFirst(kept, rest);
        next := RemoveArea(node, |kept|);
      } else if node.base >= end {
        stop := true;
      } else {
        kept' := kept + [rest[0]];
        assert kept + rest == kept' + rest[1..];
        ghost var j;
        next, j := vmas.Next(node);
        vmas.InContents();
        Unique(vmas.Contents(), |kept|, j);
      }
    }

    /** The loop of vmm_unmap. */
    method Sweep(base: nat, end: nat)
      requires Valid() && Vmas.Good(Areas())
      modifies this`vmasCount, vmas, vmas.nodes`parent, vmas.nodes`left, vmas.nodes`right, vmas.nodes`color
      ensures Valid() && vmas.nodes <= old(vmas.nodes) && Areas() == Vmas.RemoveWithin(old(Areas()), base, end)
    {
      hide RbTree.Valid, InOrder, RedBlack.Sorted, AreasOf, AreaTree.Areas, Vmas.Good, Vmas.RemoveWithin;
      ghost var vs, kept, rest := Areas(), [], Areas();
      var node := vmas.First();
      while node != null
        invariant Valid() && vmas.nodes <= old(vmas.nodes) && Areas() == kept + rest && Vmas.Good(rest)
        invariant Vmas.RemoveWithin(vs, base, end) == kept + Vmas.RemoveWithin(rest, base, end)
        invariant node == At(vmas.Contents(), |kept|)
        decreases |rest|
      {
        Laid();
        SweepStep(kept, rest, base, end);
        var stop;
        node, stop, kept := SweepTurn(node, base, end, kept, rest);
        if stop {
          return;
        }
        rest := rest[1..];
      }
      Laid();
      SweepEnd(base, end);
    }

    /** vmm_unmap, without the pages. Both failures to split are impossible here: the first split is always inside the
        area found, and the second test never succeeds. */
    method Unmap(addr: nat, size: nat) returns (r: Status)
      requires Valid() && Vmas.Good(Areas())
      modifies this`vmasCount, vmas, vmas.nodes
      ensures Valid() && Vmas.Good(Areas()) && (r == Invalid <==> size == 0)
      ensures Areas() == if size == 0 then old(Areas())
        else Vmas.Unmap(old(Areas()), Vmas.AlignDown(addr), Vmas.AlignDown(addr) + Vmas.AlignUp(size))
    {
      hide RbTree.Valid, InOrder, RedBlack.Sorted, AreasOf, AreaTree.Areas, Vmas.Good, Vmas.RemoveWithin, Vmas.Split,
           Vmas.Find, Vmas.AlignDown, Vmas.AlignUp;
      if size == 0 {
        return Invalid;
      }
      var base := Vmas.AlignDown(addr);
      var end := base + Vmas.AlignUp(size);
      Vmas.UnmapGood(Areas(), base, end);
      Vmas.SplitBaseExact(Areas(), base);
      SplitFirst(base);
      var last, k := FindVma(end - 1);
      Laid();
      if last != null && last.base + last.size < end {
        assert false;
      }
      Sweep(base, end);
      r := Success;
    }

    method SplitFirst(base: nat)
      requires Valid() && Vmas.Good(Areas())
      modifies this`vmasCount, vmas, vmas.nodes
      ensures Valid() && Areas() == Vmas.SplitBase(old(Areas()), base)
      ensures fresh(vmas.nodes - old(vmas.nodes))
    {
      hide RbTree.Valid, InOrder, RedBlack.Sorted, AreasOf, AreaTree.Areas, Vmas.Good, Vmas.Split, Vmas.Find;
      vmas.InContents();
      var first, i := FindVma(base);
      Laid();
      if first != null && first.base < base {
        var half := VmaSplit(first, base, i);
      }
    }

    /** One turn of the loop of vmm_protect. */
    method ProtectTurn(addr: nat, end: nat, flags: bv32) returns (next: nat)
      requires Valid() && Vmas.Good(Areas()) && Vmas.Find(Areas(), addr) >= 0 && addr < end
      requires addr % Vmas.PAGE == 0 && end % Vmas.PAGE == 0
      modifies this`vmasCount, vmas, vmas.nodes
      ensures Valid() && fresh(vmas.nodes - old(vmas.nodes))
      ensures var (ws, i) := Vmas.Isolate(old(Areas()), Vmas.Find(old(Areas()), addr), addr, end);
        Areas() == ws[i := ws[i].(flags := Vmas.Merge(ws[i].flags, flags))] && next == ws[i].End()
    {
      hide RbTree.Valid, InOrder, RedBlack.Sorted, AreasOf, AreaTree.Areas, Vmas.Good, Vmas.Find, Vmas.Split,
           Vmas.Merge;
      ghost var vs := Areas();
      var vma, f := FindVma(addr);
      ghost var i := f;
      Laid();
      if vma.base < addr {
        Vmas.SplitGood(vs, f, addr);
        SplitFinds(vs, f, addr);
        var half := VmaSplit(vma, addr, f);
        vma, i := FindVma(addr);
        Laid();
      }
      if vma.base + vma.size > end {
        var half := VmaSplit(vma, end, i);
        Laid();
      }
      Reflag(vma, Vmas.Merge(vma.flags, flags), i);
      next := vma.base + vma.size;
    }

    /** vmm_protect, without the pages. */
    method Protect(base0: nat, size: nat, flags: bv32) returns (r: Status)
      requires Valid() && Vmas.Good(Areas())
      modifies this`vmasCount, vmas, vmas.nodes
      ensures Valid() && Vmas.Good(Areas())
      ensures size == 0 ==> r == Invalid && Areas() == old(Areas())
      ensures size > 0 ==>
        var out := Vmas.Protect(old(Areas()), Vmas.AlignDown(base0), Vmas.AlignDown(base0) + Vmas.AlignUp(size), flags);
        Areas() == out.areas && (r == Invalid <==> out.Hole?)
    {
      hide RbTree.Valid, InOrder, RedBlack.Sorted, AreasOf, AreaTree.Areas, Vmas.Good, Vmas.Find, Vmas.Isolate,
           Vmas.Merge, Vmas.AlignDown, Vmas.AlignUp, Vmas.Protect;
      if size == 0 {
        return Invalid;
      }
      var base := Vmas.AlignDown(base0);
      var addr, end := base, base + Vmas.AlignUp(size);
      ghost var out := Vmas.Protect(Areas(), base, end, flags);
      while addr < end
        invariant Valid() && Vmas.Good(Areas()) && fresh(vmas.nodes - old(vmas.nodes))
        invariant addr % Vmas.PAGE == 0 && end % Vmas.PAGE == 0
        invariant Vmas.Protect(Areas(), addr, end, flags) == out
        decreases end - addr
      {
        Vmas.ProtectUnfolds(Areas(), addr, end, flags);
        var vma, f := FindVma(addr);
        Laid();
        if vma == null {
          return Invalid;
        }
        Vmas.ProtectKeeps(Areas(), f, addr, end, flags);
        addr := ProtectTurn(addr, end, flags);
      }
      Vmas.ProtectEnds(Areas(), addr, end, flags);
      r := Success;
    }

    /** vmm_is_accessible: while the areas are apart, yes exactly when every address of the range has every bit. */
    method IsAccessible(base: nat, size: nat, access: bv32) returns (r: bool)
      requires Valid()
      ensures r <==> size > 0 && Vmas.Accessible(Areas(), Vmas.AlignDown(base), Vmas.AlignUp(base + size), access)
      ensures Vmas.Good(Areas()) ==>
        (r <==> size > 0 && Vmas.AllAllow(Areas(), Vmas.AlignDown(base), Vmas.AlignUp(base + size), access))
    {
      hide RbTree.Valid, InOrder, RedBlack.Sorted, AreasOf, AreaTree.Areas, Vmas.AlignDown, Vmas.AlignUp, Vmas.Good,
           Vmas.Accessible, Vmas.AllAllow;
      if size == 0 {
        return false;
      }
      var addr, end := Vmas.AlignDown(base), Vmas.AlignUp(base + size);
      if Vmas.Good(Areas()) { Vmas.AccessibleExact(Areas(), addr, end, access); }
      r := WalkAreas(addr, end, access);
    }

    /** The loop of vmm_is_accessible. */
    method WalkAreas(base: nat, end: nat, access: bv32) returns (r: bool)
      requires Valid()
      ensures r <==> Vmas.Accessible(Areas(), base, end, access)
    {
      hide RbTree.Valid, InOrder, RedBlack.Sorted, AreasOf, AreaTree.Areas, Vmas.Find, Vmas.Grants;
      var addr := base;
      while addr < end
        invariant Vmas.Accessible(Areas(), addr, end, access) <==> Vmas.Accessible(Areas(), base, end, access)
        decreases end - addr
      {
        var v, f := FindVma(addr);
        Laid();
        if v == null {
          return false;
        }
        if !Vmas.Grants(v.flags, access) {
          return false;
        }
        addr := v.base + v.size;
      }
      return true;
    }

    /** _range_overlaps: it asks about the first byte only. */
    method RangeOverlaps(base: nat, size: nat) returns (r: bool)
      requires Valid() && size > 0
      ensures r <==> Vmas.Find(Areas(), base) >= 0
    {
      hide RbTree.Valid, InOrder, RedBlack.Sorted, AreasOf, AreaTree.Areas, Vmas.LowerBound;
      var vma, f := FindVma(base);
      Laid();
      if vma == null {
        return false;
      }
      r := vma.base < base + size;
    }

    /** vmm_map, with the pages taken as given: where the new area goes, and when it is refused. */
    method Map(base0: nat, size0: nat, flags: bv32) returns (r: nat)
      requires Valid()
      modifies this`mmapBase, this`vmasCount, vmas, vmas.nodes
      ensures Valid()
      ensures Areas() == Mapping(old(Areas()), old(mmapBase), base0, size0, flags)
      ensures var at := Place(old(Areas()), old(mmapBase), base0, size0, flags);
        r == if at.Accepted? && !Vmas.Taken(old(Areas()), at.base) then at.base else 0
    {
      hide RbTree.Valid, InOrder, RedBlack.Sorted, AreasOf, AreaTree.Areas, Vmas.Find, Vmas.AlignDown, Vmas.AlignUp,
           Vmas.Has, Vmas.Taken, Vmas.Insert, Vmas.LowerBound, Vmas.Gap, AreaFlags;
      if size0 == 0 {
        return 0;
      }
      var size := Vmas.AlignUp(size0);
      var base := base0;
      if base == 0 && !Vmas.Has(flags, Vmas.FIXED) {
        base := FindFreeGap(size);
        if base == 0 {
          return 0;
        }
      } else {
        base := Vmas.AlignDown(base);
        if Vmas.Has(flags, Vmas.FIXED) {
          var over := RangeOverlaps(base, size);
          if over {
            return 0;
          }
        }
      }
      var vma := new Node(base, size, AreaFlags(flags));
      var ok, j := AddArea(vma);
      r := if ok then base else 0;
    }
  }
}
