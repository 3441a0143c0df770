/** The virtual memory areas of one address space as a sequence ordered by base address: what
    kernel/src/mm/vmm.c computes on them, and what that means address by address. */
module Vmas {

  const PAGE := 0x1000
  const USER_START := 0x1000

  const PRESENT: bv32 := 1
  const WRITABLE: bv32 := 2
  const USER: bv32 := 4
  const EXECUTABLE: bv32 := 8
  const LAZY: bv32 := 16
  const ALLOCATED: bv32 := 32
  const SHARED: bv32 := 64
  const FIXED: bv32 := 128
  const MMIO: bv32 := 512

  /** The flag bits vmm_protect never changes. */
  const PRESERVE: bv32 := ALLOCATED | LAZY | PRESENT

  datatype Vma = Vma(base: nat, size: nat, flags: bv32) {
    function End(): nat { base + size }
    predicate Contains(addr: int) { base <= addr < base + size }
    predicate Below(v: Vma) { base + size <= v.base }
    predicate Shaped() { size > 0 && base % PAGE == 0 && size % PAGE == 0 }
  }

  predicate Has(flags: bv32, bit: bv32) {
    flags & bit != 0
  }

  predicate SingleBit(m: bv32) {
    m != 0 && m & (m - 1) == 0
  }

  function AlignDown(x: nat): (r: nat)
    ensures r <= x < r + PAGE && r % PAGE == 0
  {
    x / 0x1000 * 0x1000
  }

  function AlignUp(x: nat): (r: nat)
    ensures x <= r < x + PAGE && r % PAGE == 0
  {
    (x + 0xFFF) / 0x1000 * 0x1000
  }

  ghost predicate Sorted(vs: seq<Vma>) {
    forall i, j :: 0 <= i < j < |vs| ==> vs[i].base < vs[j].base
  }

  ghost predicate Apart(vs: seq<Vma>) {
    forall i, j :: 0 <= i < j < |vs| ==> vs[i].Below(vs[j])
  }

  ghost predicate AllShaped(vs: seq<Vma>) {
    forall i :: 0 <= i < |vs| ==> vs[i].Shaped()
  }

  /** What vmm.c keeps of its areas as long as every new one is put where there is room. */
  ghost predicate Good(vs: seq<Vma>) {
    Apart(vs) && AllShaped(vs)
  }

  lemma GoodSorted(vs: seq<Vma>)
    requires Good(vs)
    ensures Sorted(vs)
  {
    forall i, j | 0 <= i < j < |vs| ensures vs[i].base < vs[j].base {
      assert vs[i].Below(vs[j]) && vs[i].Shaped();
    }
  }

  ghost predicate Mapped(vs: seq<Vma>, addr: int) {
    exists i :: 0 <= i < |vs| && vs[i].Contains(addr)
  }

  /** The area an address lies in, None if there is none. */
  datatype Lookup = Nowhere | In(flags: bv32)

  ghost function FlagsAt(vs: seq<Vma>, addr: int): Lookup {
    if Mapped(vs, addr) then
      var i :| 0 <= i < |vs| && vs[i].Contains(addr); In(vs[i].flags)
    else Nowhere
  }

  /** Areas that lie apart do not disagree about an address. */
  lemma AtMostOne(vs: seq<Vma>, i: nat, j: nat, addr: int)
    requires Apart(vs) && i < |vs| && j < |vs| && vs[i].Contains(addr) && vs[j].Contains(addr)
    ensures i == j
  {
    var v, w := vs[i], vs[j];
    assert i < j ==> v.Below(w);
    assert j < i ==> w.Below(v);
  }

  lemma FlagsOf(vs: seq<Vma>, i: nat, addr: int)
    requires Apart(vs) && i < |vs| && vs[i].Contains(addr)
    ensures FlagsAt(vs, addr) == In(vs[i].flags)
  {
    assert Mapped(vs, addr);
    var j :| 0 <= j < |vs| && vs[j].Contains(addr) && FlagsAt(vs, addr) == In(vs[j].flags);
    AtMostOne(vs, i, j, addr);
  }

  // ---- searching

  /** rb_lower_bound: the first area whose base is not below `addr`. */
  function LowerBound(vs: seq<Vma>, addr: int): (k: nat)
    ensures k <= |vs|
    ensures forall i :: 0 <= i < k ==> vs[i].base < addr
    ensures k < |vs| ==> vs[k].base >= addr
  {
    if vs == [] || vs[0].base >= addr then 0 else 1 + LowerBound(vs[1..], addr)
  }

  /** _find_vma: the lower bound if it starts exactly here, else the area before it. */
  function Find(vs: seq<Vma>, addr: int): (r: int)
    ensures -1 <= r < |vs| && (r >= 0 ==> vs[r].Contains(addr))
  {
    var k := LowerBound(vs, addr);
    if k < |vs| && vs[k].Contains(addr) then k
    else if k > 0 && vs[k-1].Contains(addr) then k - 1
    else -1
  }

  /** Over areas that lie apart the search is exact: it misses no area that contains the address. */
  lemma FindExact(vs: seq<Vma>, addr: int)
    requires Good(vs)
    ensures Find(vs, addr) >= 0 <==> Mapped(vs, addr)
    ensures forall i :: 0 <= i < |vs| && vs[i].Contains(addr) ==> Find(vs, addr) == i
  {
    var k := LowerBound(vs, addr);
    forall i | 0 <= i < |vs| && vs[i].Contains(addr) ensures Find(vs, addr) == i {
      var v := vs[i];
      if k < |vs| { var w := vs[k]; assert w.Shaped() && (k < i ==> w.Below(v)); }
      if k > 0 { var w := vs[k-1]; assert i + 1 < k ==> v.Below(w); }
    }
  }

  /** rb_insert refuses a base that is taken and otherwise keeps the order. */
  function Taken(vs: seq<Vma>, base: nat): bool {
    var k := LowerBound(vs, base); k < |vs| && vs[k].base == base
  }

  lemma {:induction false} TakenExact(vs: seq<Vma>, base: nat)
    requires Good(vs)
    ensures Taken(vs, base) <==> exists i :: 0 <= i < |vs| && vs[i].base == base
  {
    if i :| 0 <= i < |vs| && vs[i].base == base {
      GoodSorted(vs);
      LowerBoundIs(vs, base, i);
    }
  }

  function Insert(vs: seq<Vma>, v: Vma): seq<Vma> {
    var k := LowerBound(vs, v.base); vs[..k] + [v] + vs[k..]
  }

  ghost predicate RangeFree(vs: seq<Vma>, base: nat, end: nat) {
    forall i :: 0 <= i < |vs| ==> vs[i].End() <= base || end <= vs[i].base
  }

  lemma InsertSorted(vs: seq<Vma>, v: Vma)
    requires Sorted(vs) && !Taken(vs, v.base)
    ensures Sorted(Insert(vs, v)) && (AllShaped(vs) && v.Shaped() ==> AllShaped(Insert(vs, v)))
  {
    var k, ws := LowerBound(vs, v.base), Insert(vs, v);
    forall i, j | 0 <= i < j < |ws| ensures ws[i].base < ws[j].base {
      if j > k { assert ws[j] == vs[j-1] && v.base < vs[k].base <= vs[j-1].base; }
      if i < k { assert ws[i] == vs[i]; }
    }
  }

  lemma InsertAdds(vs: seq<Vma>, v: Vma)
    ensures multiset(Insert(vs, v)) == multiset(vs) + multiset{v}
  {
    var k := LowerBound(vs, v.base);
    assert vs == vs[..k] + vs[k..];
  }

  /** A new area keeps the areas apart exactly when it is put where nothing is mapped. */
  lemma InsertApart(vs: seq<Vma>, v: Vma)
    requires Good(vs) && v.Shaped() && !Taken(vs, v.base)
    ensures Apart(Insert(vs, v)) <==> RangeFree(vs, v.base, v.End())
  {
    var k, ws := LowerBound(vs, v.base), Insert(vs, v);
    if Apart(ws) {
      forall i | 0 <= i < |vs| ensures vs[i].End() <= v.base || v.End() <= vs[i].base {
        if i < k { assert ws[i] == vs[i] && ws[k] == v && ws[i].Below(ws[k]); }
        else { assert ws[i+1] == vs[i] && ws[k] == v && ws[k].Below(ws[i+1]); }
      }
    }
    if RangeFree(vs, v.base, v.End()) {
      forall i, j | 0 <= i < j < |ws| ensures ws[i].Below(ws[j]) { InsertPair(vs, v, i, j); }
    }
  }

  lemma InsertPair(vs: seq<Vma>, v: Vma, i: nat, j: nat)
    requires Good(vs) && v.Shaped() && !Taken(vs, v.base) && RangeFree(vs, v.base, v.End()) && i < j <= |vs|
    ensures Insert(vs, v)[i].Below(Insert(vs, v)[j])
  {
    var k := LowerBound(vs, v.base);
    if i < k && j > k { assert vs[i].Below(vs[j-1]); }
    else if j < k { assert vs[i].Below(vs[j]); }
    else if i > k { assert vs[i-1].Below(vs[j-1]); }
    else if i == k {
      assert vs[j-1].Shaped();
      if k < j - 1 { assert vs[k].Below(vs[j-1]) && vs[k].Shaped(); }
    } else { assert vs[i].Shaped(); }
  }

  // ---- splitting

  /** _vma_split: area `i` keeps what lies below `addr`, a new area takes the rest. */
  function Split(vs: seq<Vma>, i: nat, addr: nat): seq<Vma>
    requires i < |vs| && vs[i].base < addr < vs[i].End()
  {
    var v := vs[i];
    vs[..i] + [Vma(v.base, addr - v.base, v.flags), Vma(addr, v.End() - addr, v.flags)] + vs[i+1..]
  }

  /** The new half goes where rb_insert would put it. */
  lemma SplitInserts(vs: seq<Vma>, i: nat, addr: nat)
    requires Good(vs) && i < |vs| && vs[i].base < addr < vs[i].End()
    ensures var lower := vs[i := Vma(vs[i].base, addr - vs[i].base, vs[i].flags)];
      && !Taken(lower, addr)
      && Insert(lower, Vma(addr, vs[i].End() - addr, vs[i].flags)) == Split(vs, i, addr)
  {
    var lower := vs[i := Vma(vs[i].base, addr - vs[i].base, vs[i].flags)];
    var k := LowerBound(lower, addr);
    assert k == i + 1 by {
      GoodSorted(vs);
      if i + 1 < |vs| { assert vs[i].Below(vs[i+1]); }
      LowerBoundIs(lower, addr, i + 1);
    }
  }

  lemma LowerBoundIs(vs: seq<Vma>, addr: int, k: nat)
    requires k <= |vs| && (forall i :: 0 <= i < k ==> vs[i].base < addr) && (k < |vs| ==> vs[k].base >= addr)
    ensures LowerBound(vs, addr) == k
  {
  }

  /** Where the areas of a split come from. */
  lemma SplitAt(vs: seq<Vma>, i: nat, addr: nat, j: nat)
    requires i < |vs| && vs[i].base < addr < vs[i].End() && j < |vs| + 1
    ensures Split(vs, i, addr)[j] ==
      if j < i then vs[j]
      else if j == i then Vma(vs[i].base, addr - vs[i].base, vs[i].flags)
      else if j == i + 1 then Vma(addr, vs[i].End() - addr, vs[i].flags)
      else vs[j-1]
  {
  }

  lemma SplitGood(vs: seq<Vma>, i: nat, addr: nat)
    requires Good(vs) && i < |vs| && vs[i].base < addr < vs[i].End() && addr % PAGE == 0
    ensures Good(Split(vs, i, addr))
  {
    var ws := Split(vs, i, addr);
    forall j, k | 0 <= j < k < |ws| ensures ws[j].Below(ws[k]) { SplitPair(vs, i, addr, j, k); }
    forall j | 0 <= j < |ws| ensures ws[j].Shaped() {
      SplitAt(vs, i, addr, j);
      assert vs[if j <= i then j else j - 1].Shaped();
      if i <= j <= i + 1 { assert vs[i].Shaped(); }
    }
  }

  lemma SplitPair(vs: seq<Vma>, i: nat, addr: nat, j: nat, k: nat)
    requires Good(vs) && i < |vs| && vs[i].base < addr < vs[i].End() && j < k <= |vs|
    ensures Split(vs, i, addr)[j].Below(Split(vs, i, addr)[k])
  {
    SplitAt(vs, i, addr, j);
    SplitAt(vs, i, addr, k);
    var j0, k0 := if j <= i then j else j - 1, if k <= i then k else k - 1;
    if j0 < k0 { assert vs[j0].Below(vs[k0]); }
  }

  /** Splitting an area changes nothing about any address. */
  lemma SplitMeansNothing(vs: seq<Vma>, i: nat, addr: nat, a: int)
    requires Good(vs) && i < |vs| && vs[i].base < addr < vs[i].End() && addr % PAGE == 0
    ensures FlagsAt(Split(vs, i, addr), a) == FlagsAt(vs, a)
  {
    var ws := Split(vs, i, addr);
    SplitGood(vs, i, addr);
    if Mapped(vs, a) {
      var j :| 0 <= j < |vs| && vs[j].Contains(a);
      var k := if j < i || (j == i && a < addr) then j else j + 1;
      SplitAt(vs, i, addr, k);
      FlagsOf(vs, j, a);
      FlagsOf(ws, k, a);
    } else {
      forall k | 0 <= k < |ws| ensures !ws[k].Contains(a) {
        SplitAt(vs, i, addr, k);
        assert !vs[if k <= i then k else k - 1].Contains(a);
      }
    }
  }

  // ---- the gap finder

  /** The area that is in the way of `size` bytes at `c`, as far as _find_free_gap looks: one that contains
      the first byte, one that contains the last, or the next one if it starts in between. */
  function Obstacle(vs: seq<Vma>, c: nat, size: nat): (o: int)
    requires size > 0
    ensures -1 <= o < |vs|
  {
    var k := LowerBound(vs, c);
    if Find(vs, c) >= 0 then Find(vs, c)
    else if Find(vs, c + size - 1) >= 0 then Find(vs, c + size - 1)
    else if k == |vs| || vs[k].base >= c + size then -1 else k
  }

  /** _find_free_gap below `hint`; 0 stands for "no room". The hint falls at every turn. */
  function Gap(vs: seq<Vma>, hint: nat, size: nat): nat
    requires size > 0
    decreases hint
  {
    if hint < USER_START + size then 0 else
    var c := AlignDown(hint - size);
    if c < USER_START then 0 else
    var o := Obstacle(vs, c, size);
    if o < 0 then c else Gap(vs, vs[o].base, size)
  }

  /** Over good areas the obstacle is real, and where there is none nothing is mapped. */
  lemma ObstacleExact(vs: seq<Vma>, c: nat, size: nat)
    requires Good(vs) && size > 0
    ensures var o := Obstacle(vs, c, size);
      if o >= 0 then vs[o].base < c + size && c < vs[o].End() else RangeFree(vs, c, c + size)
  {
    FindExact(vs, c);
    var k := LowerBound(vs, c);
    if k < |vs| { assert vs[k].Shaped(); }
    if Obstacle(vs, c, size) < 0 { GapIsFree(vs, c, size); }
  }

  /** A place for `size` bytes: page aligned, in the user range below `hint`, with nothing mapped in it. */
  ghost predicate Window(vs: seq<Vma>, hint: nat, size: nat, w: nat) {
    w % PAGE == 0 && USER_START <= w && w + size <= hint && RangeFree(vs, w, w + size)
  }

  /** An area that reaches into the best candidate rules out everything above its own base. */
  lemma WindowsFall(vs: seq<Vma>, hint: nat, size: nat, w: nat, o: nat)
    requires size > 0 && USER_START + size <= hint && Window(vs, hint, size, w) && o < |vs|
    requires vs[o].base < AlignDown(hint - size) + size && AlignDown(hint - size) < vs[o].End()
    ensures Window(vs, vs[o].base, size, w)
  {
    AlignedBelow(w, hint - size);
  }

  /** The search returns the highest window, and 0 exactly when there is none. */
  lemma {:induction false} GapIsHighest(vs: seq<Vma>, hint: nat, size: nat)
    requires Good(vs) && size > 0
    ensures Gap(vs, hint, size) == 0 ==> forall w: nat :: !Window(vs, hint, size, w)
    ensures Gap(vs, hint, size) != 0 ==> Window(vs, hint, size, Gap(vs, hint, size))
    ensures forall w: nat :: Window(vs, hint, size, w) ==> w <= Gap(vs, hint, size)
    decreases hint
  {
    if hint >= USER_START + size {
      var c := AlignDown(hint - size);
      ObstacleExact(vs, c, size);
      hide AlignDown, Good, Obstacle, RangeFree;
      var o := Obstacle(vs, c, size);
      forall w: nat | Window(vs, hint, size, w) ensures w <= c {
        assert w <= hint - size;
        AlignedBelow(w, hint - size);
      }
      if c >= USER_START && o >= 0 {
        forall w: nat | Window(vs, hint, size, w) ensures Window(vs, vs[o].base, size, w) {
          WindowsFall(vs, hint, size, w, o);
        }
        GapIsHighest(vs, vs[o].base, size);
      }
    }
  }

  lemma AlignedBelow(w: nat, x: nat)
    requires w % PAGE == 0 && w <= x
    ensures w <= AlignDown(x)
  {
  }

  lemma GapIsFree(vs: seq<Vma>, c: nat, size: nat)
    requires Good(vs) && size > 0 && !Mapped(vs, c)
    requires LowerBound(vs, c) == |vs| || vs[LowerBound(vs, c)].base >= c + size
    ensures RangeFree(vs, c, c + size)
  {
    var k := LowerBound(vs, c);
    forall i | 0 <= i < |vs| ensures vs[i].End() <= c || c + size <= vs[i].base {
      assert !vs[i].Contains(c);
      if i > k { assert vs[k].Below(vs[i]); }
    }
  }

  // ---- unmapping

  function RemoveWithin(vs: seq<Vma>, base: nat, end: nat): seq<Vma> {
    if vs == [] then []
    else if base <= vs[0].base && vs[0].End() <= end then RemoveWithin(vs[1..], base, end)
    else [vs[0]] + RemoveWithin(vs[1..], base, end)
  }

  /** vmm_unmap splits the area that reaches over `base` and removes the areas that lie inside. Its second
      test asks for an area that contains end - 1 and stops before `end`, so it never splits there. */
  function Unmap(vs: seq<Vma>, base: nat, end: nat): seq<Vma> {
    var f := Find(vs, base);
    RemoveWithin(if f >= 0 && vs[f].base < base then Split(vs, f, base) else vs, base, end)
  }

  lemma {:induction false} RemoveWithinMembers(vs: seq<Vma>, base: nat, end: nat)
    ensures forall v :: v in RemoveWithin(vs, base, end) <==> v in vs && !(base <= v.base && v.End() <= end)
  {
    if vs != [] {
      assert vs == [vs[0]] + vs[1..];
      RemoveWithinMembers(vs[1..], base, end);
    }
  }

  lemma {:induction false} RemoveWithinGood(vs: seq<Vma>, base: nat, end: nat)
    requires Good(vs)
    ensures Good(RemoveWithin(vs, base, end))
  {
    if vs != [] {
      forall i, j | 0 <= i < j < |vs| - 1 ensures vs[1..][i].Below(vs[1..][j]) { assert vs[i+1].Below(vs[j+1]); }
      forall i | 0 <= i < |vs| - 1 ensures vs[1..][i].Shaped() { assert vs[i+1].Shaped(); }
      RemoveWithinGood(vs[1..], base, end);
      RemoveWithinMembers(vs[1..], base, end);
      var rest := RemoveWithin(vs[1..], base, end);
      forall v | v in rest ensures vs[0].Below(v) {
        assert v in vs[1..];
        var i :| 0 <= i < |vs| - 1 && vs[1..][i] == v;
        assert vs[0].Below(vs[i+1]);
      }
      assert vs[0].Shaped();
      hide RemoveWithin;
      PrependGood(vs[0], rest);
    }
  }

  lemma PrependGood(v: Vma, vs: seq<Vma>)
    requires Good(vs) && v.Shaped() && forall w :: w in vs ==> v.Below(w)
    ensures Good([v] + vs)
  {
    var ws := [v] + vs;
    forall i, j | 0 <= i < j < |ws| ensures ws[i].Below(ws[j]) {
      if i == 0 { assert vs[j-1] in vs; } else { assert vs[i-1].Below(vs[j-1]); }
    }
    forall i | 0 <= i < |ws| ensures ws[i].Shaped() { if i > 0 { assert vs[i-1].Shaped(); } }
  }

  lemma FlagsIn(vs: seq<Vma>, v: Vma, addr: int)
    requires Apart(vs) && v in vs && v.Contains(addr)
    ensures FlagsAt(vs, addr) == In(v.flags)
  {
    var i :| 0 <= i < |vs| && vs[i] == v;
    FlagsOf(vs, i, addr);
  }

  ghost predicate Straddled(vs: seq<Vma>, end: nat) {
    exists i :: 0 <= i < |vs| && vs[i].base < end < vs[i].End()
  }

  /** The area of address `a` reaches beyond `end`. */
  ghost predicate Beyond(vs: seq<Vma>, a: int, end: nat) {
    exists i :: 0 <= i < |vs| && vs[i].Contains(a) && vs[i].End() > end
  }

  /** Removing areas when none reaches over `base`. */
  lemma RemoveWithinMeans(vs: seq<Vma>, base: nat, end: nat, a: int)
    requires Good(vs) && !Straddled(vs, base)
    ensures FlagsAt(RemoveWithin(vs, base, end), a) ==
      if base <= a < end && !Beyond(vs, a, end) then Nowhere else FlagsAt(vs, a)
  {
    var ws := RemoveWithin(vs, base, end);
    RemoveWithinMembers(vs, base, end);
    RemoveWithinGood(vs, base, end);
    if i :| 0 <= i < |vs| && vs[i].Contains(a) {
      FlagsOf(vs, i, a);
      BeyondOf(vs, i, a, end);
      if vs[i] in ws {
        FlagsIn(ws, vs[i], a);
      } else {
        forall k | 0 <= k < |ws| ensures !ws[k].Contains(a) {
          assert ws[k] in vs;
          var j :| 0 <= j < |vs| && vs[j] == ws[k];
          if vs[j].Contains(a) { AtMostOne(vs, i, j, a); }
        }
      }
    } else {
      forall k | 0 <= k < |ws| ensures !ws[k].Contains(a) { assert ws[k] in vs; }
    }
  }

  /** The areas vmm_unmap sweeps over: none of them reaches over `base` any more. */
  ghost function SplitBase(vs: seq<Vma>, base: nat): seq<Vma> {
    var f := Find(vs, base); if f >= 0 && vs[f].base < base then Split(vs, f, base) else vs
  }

  lemma SplitBaseExact(vs: seq<Vma>, base: nat)
    requires Good(vs) && base % PAGE == 0
    ensures Good(SplitBase(vs, base)) && !Straddled(SplitBase(vs, base), base)
    ensures forall a :: FlagsAt(SplitBase(vs, base), a) == FlagsAt(vs, a)
  {
    FindExact(vs, base);
    var f := Find(vs, base);
    if f >= 0 && vs[f].base < base {
      SplitGood(vs, f, base);
      forall a ensures FlagsAt(Split(vs, f, base), a) == FlagsAt(vs, a) { SplitMeansNothing(vs, f, base, a); }
      var ws := Split(vs, f, base);
      SplitAt(vs, f, base, f);
      SplitAt(vs, f, base, f + 1);
      forall j | 0 <= j < |ws| ensures !(ws[j].base < base < ws[j].End()) {
        if j < f { assert ws[j].Below(ws[f]); }
        if j > f + 1 { assert ws[f+1].Below(ws[j]); }
      }
    } else {
      forall j | 0 <= j < |vs| ensures !(vs[j].base < base < vs[j].End()) {
        assert vs[j].Contains(base) ==> f == j;
      }
    }
  }

  lemma UnmapSweeps(vs: seq<Vma>, base: nat, end: nat)
    ensures Unmap(vs, base, end) == RemoveWithin(SplitBase(vs, base), base, end)
  {
  }

  lemma UnmapGood(vs: seq<Vma>, base: nat, end: nat)
    requires Good(vs) && base % PAGE == 0
    ensures Good(Unmap(vs, base, end))
  {
    SplitBaseExact(vs, base);
    RemoveWithinGood(SplitBase(vs, base), base, end);
  }

  /** What vmm_unmap does to one address: it goes, unless its area reaches beyond `end`. */
  lemma UnmapMeans(vs: seq<Vma>, base: nat, end: nat, a: int)
    requires Good(vs) && base % PAGE == 0 && base < end
    ensures FlagsAt(Unmap(vs, base, end), a) ==
      if base <= a < end && !Beyond(vs, a, end) then Nowhere else FlagsAt(vs, a)
  {
    var ws := SplitBase(vs, base);
    SplitBaseExact(vs, base);
    RemoveWithinMeans(ws, base, end, a);
    assert FlagsAt(ws, a) == FlagsAt(vs, a);
    if base <= a < end { SplitKeepsEnds(vs, base, end, a); }
  }

  /** The split at `base` does not change where the area of an address above it ends. */
  lemma SplitKeepsEnds(vs: seq<Vma>, base: nat, end: nat, a: int)
    requires Good(vs) && base % PAGE == 0 && base <= a
    ensures Beyond(vs, a, end) <==> Beyond(SplitBase(vs, base), a, end)
  {
    var ws := SplitBase(vs, base);
    var f := Find(vs, base);
    SplitBaseExact(vs, base);
    if f >= 0 && vs[f].base < base {
      if i :| 0 <= i < |vs| && vs[i].Contains(a) {
        FindExact(vs, base);
        assert i < f ==> vs[i].Below(vs[f]);
        SplitAt(vs, f, base, i + 1);
        assert ws[i+1].Contains(a) && ws[i+1].End() == vs[i].End();
        BeyondOf(vs, i, a, end);
        BeyondOf(ws, i + 1, a, end);
      } else {
        assert FlagsAt(ws, a) == FlagsAt(vs, a) == Nowhere;
      }
    }
  }

  lemma BeyondOf(vs: seq<Vma>, i: nat, a: int, end: nat)
    requires Apart(vs) && i < |vs| && vs[i].Contains(a)
    ensures Beyond(vs, a, end) <==> vs[i].End() > end
  {
    if Beyond(vs, a, end) {
      var j :| 0 <= j < |vs| && vs[j].Contains(a) && vs[j].End() > end;
      AtMostOne(vs, i, j, a);
    }
  }

  /** vmm_unmap removes exactly [base, end) if and only if no area reaches over `end`. */
  lemma UnmapExact(vs: seq<Vma>, base: nat, end: nat)
    requires Good(vs) && base % PAGE == 0 && base < end
    ensures !Straddled(vs, end) <==>
      forall a :: FlagsAt(Unmap(vs, base, end), a) == if base <= a < end then Nowhere else FlagsAt(vs, a)
  {
    if Straddled(vs, end) {
      var i :| 0 <= i < |vs| && vs[i].base < end < vs[i].End();
      var a := if vs[i].base < base then base else vs[i].base;
      assert vs[i].Contains(a);
      UnmapMeans(vs, base, end, a);
      FlagsOf(vs, i, a);
    } else {
      forall a ensures FlagsAt(Unmap(vs, base, end), a) == if base <= a < end then Nowhere else FlagsAt(vs, a) {
        UnmapMeans(vs, base, end, a);
      }
    }
  }

  /** The first page of an area of three: nothing of it goes. */
  lemma UnmapMayKeep()
    ensures var vs := [Vma(0x1000, 0x3000, USER)];
      Good(vs) && Straddled(vs, 0x2000) && Unmap(vs, 0x1000, 0x2000) == vs && FlagsAt(vs, 0x1000) == In(USER)
  {
    var v := Vma(0x1000, 0x3000, USER);
    assert [v][0].Contains(0x1000);
    FlagsOf([v], 0, 0x1000);
    FindExact([v], 0x1000);
    assert [v][1..] == [] && [v] + [] == [v];
    assert RemoveWithin([v], 0x1000, 0x2000) == [v];
  }

  // ---- changing protection

  function Merge(was: bv32, now: bv32): bv32 {
    (was & PRESERVE) | (now & !PRESERVE)
  }

  lemma PreservedBits(m: bv32)
    requires SingleBit(m)
    ensures m & PRESERVE == 0 || m == ALLOCATED || m == LAZY || m == PRESENT
  {
  }

  /** Bit by bit: the allocated, lazy and present bits stay, every other one is the new one. */
  lemma MergeBit(was: bv32, now: bv32, m: bv32)
    requires SingleBit(m)
    ensures Has(Merge(was, now), m) <==>
      if m == ALLOCATED || m == LAZY || m == PRESENT then Has(was, m) else Has(now, m)
  {
    PreservedBits(m);
    hide SingleBit;
    if m & PRESERVE == 0 {
      NewBit(was, now, m);
    } else {
      OldBit(was, now, m);
    }
  }

  lemma NewBit(was: bv32, now: bv32, m: bv32)
    requires m & PRESERVE == 0
    ensures Merge(was, now) & m == now & m
  {
  }

  lemma OldBit(was: bv32, now: bv32, m: bv32)
    requires m == ALLOCATED || m == LAZY || m == PRESENT
    ensures Merge(was, now) & m == was & m
  {
  }

  datatype Outcome = Done(areas: seq<Vma>) | Hole(areas: seq<Vma>)

  /** The piece of vmm_protect that isolates the area starting at `addr` and ending by `end`. */
  function Isolate(vs: seq<Vma>, f: nat, addr: nat, end: nat): (r: (seq<Vma>, nat))
    requires f < |vs| && vs[f].Contains(addr) && addr < end
    ensures r.1 < |r.0| && r.0[r.1].base == addr && addr < r.0[r.1].End() <= end
  {
    var (ws, i) := if vs[f].base < addr then (Split(vs, f, addr), f + 1) else (vs, f);
    assert ws[i].base == addr && ws[i].End() == vs[f].End();
    if ws[i].End() > end then (Split(ws, i, end), i) else (ws, i)
  }

  function Protect(vs: seq<Vma>, addr: nat, end: nat, flags: bv32): Outcome
    decreases end - addr
  {
    if addr >= end then Done(vs) else
    var f := Find(vs, addr);
    if f < 0 then Hole(vs) else
    var (ws, i) := Isolate(vs, f, addr, end);
    Protect(ws[i := ws[i].(flags := Merge(ws[i].flags, flags))], ws[i].End(), end, flags)
  }

  lemma IsolateGood(vs: seq<Vma>, f: nat, addr: nat, end: nat)
    requires Good(vs) && f < |vs| && vs[f].Contains(addr) && addr < end && addr % PAGE == 0 && end % PAGE == 0
    ensures Good(Isolate(vs, f, addr, end).0)
    ensures forall a :: FlagsAt(Isolate(vs, f, addr, end).0, a) == FlagsAt(vs, a)
  {
    var (ws, i) := if vs[f].base < addr then (Split(vs, f, addr), f + 1) else (vs, f);
    if vs[f].base < addr {
      SplitGood(vs, f, addr);
      forall a ensures FlagsAt(ws, a) == FlagsAt(vs, a) { SplitMeansNothing(vs, f, addr, a); }
    }
    assert ws[i].base == addr;
    if ws[i].End() > end {
      SplitGood(ws, i, end);
      forall a ensures FlagsAt(Split(ws, i, end), a) == FlagsAt(ws, a) { SplitMeansNothing(ws, i, end, a); }
    }
  }

  lemma ReflagGood(vs: seq<Vma>, i: nat, flags: bv32)
    requires Good(vs) && i < |vs|
    ensures Good(vs[i := vs[i].(flags := flags)])
  {
    var ws := vs[i := vs[i].(flags := flags)];
    forall j, k | 0 <= j < k < |ws| ensures ws[j].Below(ws[k]) { assert vs[j].Below(vs[k]); }
    forall j | 0 <= j < |ws| ensures ws[j].Shaped() { assert vs[j].Shaped(); }
  }

  /** Changing the flags of one area changes them for its addresses only. */
  lemma Reflag(vs: seq<Vma>, i: nat, flags: bv32, a: int)
    requires Good(vs) && i < |vs|
    ensures FlagsAt(vs[i := vs[i].(flags := flags)], a) == if vs[i].Contains(a) then In(flags) else FlagsAt(vs, a)
  {
    var ws := vs[i := vs[i].(flags := flags)];
    ReflagGood(vs, i, flags);
    if j :| 0 <= j < |vs| && vs[j].Contains(a) {
      FlagsOf(vs, j, a);
      FlagsOf(ws, j, a);
      if vs[i].Contains(a) { AtMostOne(vs, i, j, a); }
    } else {
      forall k | 0 <= k < |ws| ensures !ws[k].Contains(a) { assert !vs[k].Contains(a); }
    }
  }

  /** Everything from `addr` up to and including `a` is mapped. */
  ghost predicate MappedUpTo(vs: seq<Vma>, addr: int, a: int) {
    forall b :: addr <= b <= a ==> Mapped(vs, b)
  }

  lemma FlagsMapped(vs: seq<Vma>, a: int)
    ensures Mapped(vs, a) <==> FlagsAt(vs, a).In?
  {
  }

  /** One turn of the loop of vmm_protect, address by address. */
  lemma ProtectStep(vs: seq<Vma>, f: nat, addr: nat, end: nat, flags: bv32, a: int)
    requires Good(vs) && f < |vs| && vs[f].Contains(addr) && addr < end && addr % PAGE == 0 && end % PAGE == 0
    ensures var (ws, i) := Isolate(vs, f, addr, end);
      var xs := ws[i := ws[i].(flags := Merge(ws[i].flags, flags))];
      && Good(xs) && ws[i].End() % PAGE == 0
      && (Mapped(xs, a) <==> Mapped(vs, a))
      && (addr <= a < ws[i].End() ==> Mapped(vs, a))
      && FlagsAt(xs, a) == (if addr <= a < ws[i].End() then In(Merge(FlagsAt(vs, a).flags, flags)) else FlagsAt(vs, a))
  {
    var (ws, i) := Isolate(vs, f, addr, end);
    IsolateGood(vs, f, addr, end);
    assert ws[i].Shaped();
    var xs := ws[i := ws[i].(flags := Merge(ws[i].flags, flags))];
    hide Isolate, Good;
    ReflagGood(ws, i, Merge(ws[i].flags, flags));
    Reflag(ws, i, Merge(ws[i].flags, flags), a);
    FlagsMapped(xs, a);
    FlagsMapped(vs, a);
    assert FlagsAt(ws, a) == FlagsAt(vs, a);
    if addr <= a < ws[i].End() { FlagsOfGood(ws, i, a); }
  }

  lemma FlagsOfGood(vs: seq<Vma>, i: nat, addr: int)
    requires Good(vs) && i < |vs| && vs[i].Contains(addr)
    ensures FlagsAt(vs, addr) == In(vs[i].flags)
  {
    FlagsOf(vs, i, addr);
  }

  lemma ProtectUnfolds(vs: seq<Vma>, addr: nat, end: nat, flags: bv32)
    requires addr < end
    ensures var f := Find(vs, addr);
      if f < 0 then Protect(vs, addr, end, flags) == Hole(vs)
      else var (ws, i) := Isolate(vs, f, addr, end);
        Protect(vs, addr, end, flags)
          == Protect(ws[i := ws[i].(flags := Merge(ws[i].flags, flags))], ws[i].End(), end, flags)
  {
  }

  lemma ProtectKeeps(vs: seq<Vma>, f: nat, addr: nat, end: nat, flags: bv32)
    requires Good(vs) && f < |vs| && vs[f].Contains(addr) && addr < end && addr % PAGE == 0 && end % PAGE == 0
    ensures var (ws, i) := Isolate(vs, f, addr, end);
      && Good(ws[i := ws[i].(flags := Merge(ws[i].flags, flags))])
      && ws[i].End() % PAGE == 0 && addr < ws[i].End() <= end
  {
    hide Merge, Isolate, Split;
    IsolateGood(vs, f, addr, end);
    var (ws, i) := Isolate(vs, f, addr, end);
    ReflagGood(ws, i, Merge(ws[i].flags, flags));
    assert ws[i].Shaped();
  }

  lemma ProtectEnds(vs: seq<Vma>, addr: nat, end: nat, flags: bv32)
    requires addr >= end
    ensures Protect(vs, addr, end, flags) == Done(vs)
  {
  }

  /** vmm_protect fails exactly when the range has a hole. */
  lemma {:induction false} ProtectHole(vs: seq<Vma>, addr: nat, end: nat, flags: bv32)
    requires Good(vs) && addr % PAGE == 0 && end % PAGE == 0
    ensures Good(Protect(vs, addr, end, flags).areas)
    ensures Protect(vs, addr, end, flags).Hole? <==> exists a :: addr <= a < end && !Mapped(vs, a)
    decreases end - addr
  {
    if addr < end {
      FindExact(vs, addr);
      var f := Find(vs, addr);
      if f >= 0 {
        var (ws, i) := Isolate(vs, f, addr, end);
        var xs := ws[i := ws[i].(flags := Merge(ws[i].flags, flags))];
        forall a ensures Mapped(xs, a) <==> Mapped(vs, a) { ProtectStep(vs, f, addr, end, flags, a); }
        forall a | addr <= a < ws[i].End() ensures Mapped(vs, a) { ProtectStep(vs, f, addr, end, flags, a); }
        ProtectStep(vs, f, addr, end, flags, addr);
        hide Isolate, Good, Mapped;
        ProtectHole(xs, ws[i].End(), end, flags);
      }
    }
  }

  /** vmm_protect changes no coverage. The addresses of the range get the merged flags, up to the first
      hole if there is one; every other address keeps what it had. */
  lemma {:induction false} ProtectMeans(vs: seq<Vma>, addr: nat, end: nat, flags: bv32, a: int)
    requires Good(vs) && addr % PAGE == 0 && end % PAGE == 0
    ensures FlagsAt(Protect(vs, addr, end, flags).areas, a) ==
      if addr <= a < end && MappedUpTo(vs, addr, a) && FlagsAt(vs, a).In?
      then In(Merge(FlagsAt(vs, a).flags, flags)) else FlagsAt(vs, a)
    decreases end - addr
  {
    if addr < end {
      FindExact(vs, addr);
      var f := Find(vs, addr);
      if f >= 0 {
        var (ws, i) := Isolate(vs, f, addr, end);
        var xs := ws[i := ws[i].(flags := Merge(ws[i].flags, flags))];
        forall b ensures Mapped(xs, b) <==> Mapped(vs, b) { ProtectStep(vs, f, addr, end, flags, b); }
        forall b | addr <= b < ws[i].End() ensures Mapped(vs, b) { ProtectStep(vs, f, addr, end, flags, b); }
        ProtectStep(vs, f, addr, end, flags, a);
        hide Isolate, Good, Mapped, Merge;
        FlagsMapped(vs, a);
        ProtectMeans(xs, ws[i].End(), end, flags, a);
        assert a >= ws[i].End() ==> (MappedUpTo(xs, ws[i].End(), a) <==> MappedUpTo(vs, addr, a));
      }
    }
  }

  // ---- asking for access

  predicate Grants(flags: bv32, access: bv32) {
    flags & access == access
  }

  /** vmm_is_accessible walks from area to area and stops at a hole or a missing flag. */
  function Accessible(vs: seq<Vma>, addr: nat, end: nat, access: bv32): bool
    decreases end - addr
  {
    addr >= end ||
    (var f := Find(vs, addr);
     f >= 0 && Grants(vs[f].flags, access) && Accessible(vs, vs[f].End(), end, access))
  }

  /** Every bit asked for, one by one, is among the flags of the address. */
  ghost predicate Allows(vs: seq<Vma>, a: int, access: bv32) {
    FlagsAt(vs, a).In? && forall m: bv32 :: SingleBit(m) && Has(access, m) ==> Has(FlagsAt(vs, a).flags, m)
  }

  ghost predicate AllAllow(vs: seq<Vma>, addr: nat, end: nat, access: bv32) {
    forall a :: addr <= a < end ==> Allows(vs, a, access)
  }

  lemma LowestBit(d: bv32) returns (m: bv32)
    requires d != 0
    ensures SingleBit(m) && d & m == m
  {
    m := d & (0 - d);
  }

  lemma GrantsBit(flags: bv32, access: bv32, m: bv32)
    requires Grants(flags, access) && Has(access, m)
    ensures Has(flags, m)
  {
  }

  lemma MissingSome(flags: bv32, access: bv32)
    requires !Grants(flags, access)
    ensures access & !flags != 0
  {
  }

  lemma MissingBit(flags: bv32, access: bv32, m: bv32)
    requires m != 0 && access & !flags & m == m
    ensures Has(access, m) && !Has(flags, m)
  {
  }

  lemma MissingOne(flags: bv32, access: bv32) returns (m: bv32)
    requires !Grants(flags, access)
    ensures SingleBit(m) && Has(access, m) && !Has(flags, m)
  {
    hide Grants, Has;
    MissingSome(flags, access);
    m := LowestBit(access & !flags);
    MissingBit(flags, access, m);
  }

  /** One test of the whole word tests every bit. */
  lemma GrantsBits(flags: bv32, access: bv32)
    ensures Grants(flags, access) <==> forall m: bv32 :: SingleBit(m) && Has(access, m) ==> Has(flags, m)
  {
    hide Grants, Has, SingleBit;
    if Grants(flags, access) {
      forall m: bv32 | SingleBit(m) && Has(access, m) ensures Has(flags, m) { GrantsBit(flags, access, m); }
    } else {
      var m := MissingOne(flags, access);
    }
  }

  /** It says yes exactly when every address of the range allows the access. */
  lemma {:induction false} AccessibleExact(vs: seq<Vma>, addr: nat, end: nat, access: bv32)
    requires Good(vs)
    ensures Accessible(vs, addr, end, access) <==> AllAllow(vs, addr, end, access)
    decreases end - addr
  {
    if addr < end {
      FindExact(vs, addr);
      FlagsMapped(vs, addr);
      var f := Find(vs, addr);
      if f >= 0 {
        GrantsBits(vs[f].flags, access);
        hide Has, SingleBit, Grants;
        forall a | addr <= a < vs[f].End() ensures Allows(vs, a, access) <==> Grants(vs[f].flags, access) {
          FlagsOf(vs, f, a);
        }
        hide Good, FlagsAt, Allows;
        if Grants(vs[f].flags, access) {
          AccessibleExact(vs, vs[f].End(), end, access);
        } else {
          assert !Allows(vs, addr, access);
        }
      } else {
        assert !Allows(vs, addr, access);
      }
    }
  }

  // ---- single areas coming and going

  /** A new area put where nothing is mapped adds exactly its own addresses. */
  lemma InsertMeans(vs: seq<Vma>, v: Vma, a: int)
    requires Good(vs) && v.Shaped() && !Taken(vs, v.base) && RangeFree(vs, v.base, v.End())
    ensures Good(Insert(vs, v))
    ensures FlagsAt(Insert(vs, v), a) == if v.Contains(a) then In(v.flags) else FlagsAt(vs, a)
  {
    var ws := Insert(vs, v);
    InsertGood(vs, v);
    InsertAdds(vs, v);
    assert v in multiset(ws);
    if v.Contains(a) {
      FlagsIn(ws, v, a);
    } else if i :| 0 <= i < |vs| && vs[i].Contains(a) {
      FlagsOf(vs, i, a);
      assert vs[i] in multiset(ws);
      FlagsIn(ws, vs[i], a);
    } else {
      forall k | 0 <= k < |ws| ensures !ws[k].Contains(a) {
        assert ws[k] in multiset(ws);
        assert ws[k] == v || ws[k] in multiset(vs);
      }
    }
  }

  lemma RoomNotTaken(vs: seq<Vma>, base: nat, end: nat)
    requires Good(vs) && base < end && RangeFree(vs, base, end)
    ensures !Taken(vs, base)
  {
    var k := LowerBound(vs, base);
    if k < |vs| { assert vs[k].Shaped(); }
  }

  lemma InsertGood(vs: seq<Vma>, v: Vma)
    requires Good(vs) && v.Shaped() && !Taken(vs, v.base) && RangeFree(vs, v.base, v.End())
    ensures Good(Insert(vs, v))
  {
    InsertApart(vs, v);
    GoodSorted(vs);
    InsertSorted(vs, v);
  }

  function DropAt(vs: seq<Vma>, i: nat): seq<Vma>
    requires i < |vs|
  {
    vs[..i] + vs[i+1..]
  }

  /** An area that goes takes exactly its own addresses with it. */
  lemma DropAtMeans(vs: seq<Vma>, i: nat, a: int)
    requires Good(vs) && i < |vs|
    ensures Good(DropAt(vs, i))
    ensures FlagsAt(DropAt(vs, i), a) == if vs[i].Contains(a) then Nowhere else FlagsAt(vs, a)
  {
    var ws := DropAt(vs, i);
    DropAtGood(vs, i);
    if j :| 0 <= j < |vs| && j != i && vs[j].Contains(a) {
      FlagsOf(vs, j, a);
      var k := if j < i then j else j - 1;
      assert ws[k] == vs[j];
      FlagsOf(ws, k, a);
      var v := vs[i];
      if v.Contains(a) { AtMostOne(vs, i, j, a); }
    } else {
      forall k | 0 <= k < |ws| ensures !ws[k].Contains(a) {
        assert ws[k] == vs[if k < i then k else k + 1];
      }
      if !vs[i].Contains(a) { assert !Mapped(vs, a); }
    }
  }

  lemma DropAtGood(vs: seq<Vma>, i: nat)
    requires Good(vs) && i < |vs|
    ensures Good(DropAt(vs, i))
  {
    var ws := DropAt(vs, i);
    forall j, k | 0 <= j < k < |ws| ensures ws[j].Below(ws[k]) {
      assert vs[if j < i then j else j + 1].Below(vs[if k < i then k else k + 1]);
    }
    forall j | 0 <= j < |ws| ensures ws[j].Shaped() { assert vs[if j < i then j else j + 1].Shaped(); }
  }

  lemma {:induction false} RemoveWithinApp(vs: seq<Vma>, ws: seq<Vma>, base: nat, end: nat)
    ensures RemoveWithin(vs + ws, base, end) == RemoveWithin(vs, base, end) + RemoveWithin(ws, base, end)
  {
    if vs == [] {
      assert vs + ws == ws;
    } else {
      assert (vs + ws)[1..] == vs[1..] + ws;
      RemoveWithinApp(vs[1..], ws, base, end);
    }
  }

  /** Areas that start at or above `end` all stay. */
  lemma {:induction false} RemoveWithinBeyond(vs: seq<Vma>, base: nat, end: nat)
    requires Good(vs) && (vs != [] ==> vs[0].base >= end)
    ensures RemoveWithin(vs, base, end) == vs
  {
    if vs != [] {
      assert vs[0].Shaped();
      assert |vs| > 1 ==> vs[0].Below(vs[1]);
      DropAtGood(vs, 0);
      assert DropAt(vs, 0) == vs[1..];
      RemoveWithinBeyond(vs[1..], base, end);
    }
  }
}
