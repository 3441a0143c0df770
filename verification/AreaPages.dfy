/** Areas and the pages they cover. */
module AreaPages {
  import opened PageTables
  import opened CowPages
  import opened Vmas

  /** The top of the user half. */
  const USER_TOP := 0x8000_0000_0000
  const MMAP_BASE := 0x7000_0000_0000

  datatype Space = Space(areas: seq<Vma>, mmapBase: nat)

  /** _vflags_to_pflags; map_page adds the present bit itself. */
  function ToPFlags(flags: bv32): PFlags {
    PFlags(Has(flags, WRITABLE), Has(flags, USER), !Has(flags, EXECUTABLE), Has(flags, MMIO))
  }

  lemma AllocatedBitOnly(flags: bv32)
    ensures ToPFlags(flags | ALLOCATED) == ToPFlags(flags)
    ensures Has(flags | ALLOCATED, LAZY) == Has(flags, LAZY) && Has(flags | ALLOCATED, SHARED) == Has(flags, SHARED)
    ensures Has(flags | ALLOCATED, ALLOCATED)
  {
  }

  /** A private area whose pages are all backed. */
  predicate Backed(v: Vma) {
    v.End() <= USER_TOP && Has(v.flags, ALLOCATED) && !Has(v.flags, LAZY) && !Has(v.flags, SHARED)
  }

  lemma SplitBacked(vs: seq<Vma>, i: nat, addr: nat)
    requires i < |vs| && vs[i].base < addr < vs[i].End() && forall j :: 0 <= j < |vs| ==> Backed(vs[j])
    ensures var ws := Split(vs, i, addr); |ws| == |vs| + 1 && forall j :: 0 <= j < |ws| ==> Backed(ws[j])
  {
    hide Has;
    var ws := Split(vs, i, addr);
    forall j | 0 <= j < |vs| + 1 ensures Backed(ws[j]) {
      SplitAt(vs, i, addr, j);
      assert Backed(vs[i]);
    }
  }

  ghost predicate SpaceOk(sp: Space) {
    Good(sp.areas) && sp.mmapBase <= MMAP_BASE && forall i :: 0 <= i < |sp.areas| ==> Backed(sp.areas[i])
  }

  /** Every area is for user code. */
  predicate AllUser(areas: seq<Vma>) {
    forall i :: 0 <= i < |areas| ==> Has(areas[i].flags, USER)
  }

  ghost function PageFlags(areas: seq<Vma>, page: nat): Lookup {
    FlagsAt(areas, page * 0x1000)
  }

  /** The mapped pages are the pages of the areas, and each is to have the access its area allows. */
  ghost predicate WantOk(spaces: map<nat, Space>, want: map<Loc, PFlags>) {
    forall l: Loc :: PageWanted(spaces, want, l)
  }

  ghost predicate PageWanted(spaces: map<nat, Space>, want: map<Loc, PFlags>, l: Loc) {
    if l.root in spaces && PageFlags(spaces[l.root].areas, l.page).In?
    then l in want && want[l] == ToPFlags(PageFlags(spaces[l.root].areas, l.page).flags)
    else l !in want
  }

  function Pages(root: nat, v: Vma): set<Loc> {
    set p | v.base / 0x1000 <= p < v.base / 0x1000 + v.size / 0x1000 :: Loc(root, p)
  }

  /** The first `n` pages of an area. */
  function FirstPages(root: nat, v: Vma, n: nat): set<Loc> {
    set p | v.base / 0x1000 <= p < v.base / 0x1000 + n :: Loc(root, p)
  }

  lemma SamePages(root: nat, v: Vma, flags: bv32)
    ensures Pages(root, v.(flags := flags)) == Pages(root, v)
  {
  }

  lemma PagesContain(root: nat, v: Vma, l: Loc)
    requires v.Shaped()
    ensures l in Pages(root, v) <==> l.root == root && v.Contains(l.page * 0x1000)
  {
  }

  lemma PageStep(root: nat, v: Vma, n: nat)
    requires v.Shaped()
    ensures (v.base + n * 0x1000) / 0x1000 == v.base / 0x1000 + n
    ensures FirstPages(root, v, n + 1) == FirstPages(root, v, n) + {Loc(root, v.base / 0x1000 + n)}
    ensures Loc(root, v.base / 0x1000 + n) !in FirstPages(root, v, n)
    ensures n < v.size / 0x1000 ==> Loc(root, v.base / 0x1000 + n) in Pages(root, v) && v.base + n * 0x1000 < v.End()
  {
  }

  function Fill<V>(m: map<Loc, V>, ls: set<Loc>, v: V): map<Loc, V> {
    m + map l | l in ls :: v
  }

  lemma FillStep<V>(m: map<Loc, V>, ls: set<Loc>, l: Loc, v: V)
    ensures Fill(m, ls, v).Keys == m.Keys + ls
    ensures Fill(m, ls + {l}, v) == Fill(m, ls, v)[l := v]
  {
  }

  lemma FillElsewhere<V>(m: map<Loc, V>, ls: set<Loc>, l: Loc, v: V)
    requires l in m && l !in ls
    ensures l in Fill(m, ls, v) && Fill(m, ls, v)[l] == m[l]
  {
  }

  lemma NoPages<V>(m: map<Loc, V>, root: nat, a: Vma, v: V)
    ensures Fill(m, FirstPages(root, a, 0), v) == m && m - FirstPages(root, a, 0) == m
    ensures FirstPages(root, a, a.size / 0x1000) == Pages(root, a)
  {
  }

  /** The pages of `child` in `ls` get what the same pages of `parent` hold. */
  function CopyOver(m: Memory, ls: set<Loc>, parent: nat): Memory {
    m + map l | l in ls && Loc(parent, l.page) in m :: m[Loc(parent, l.page)]
  }

  lemma CopyStep(m: Memory, ls: set<Loc>, l: Loc, parent: nat)
    requires l !in ls && Loc(parent, l.page) in m
    requires forall k :: k in ls || k == l ==> k.root != parent
    ensures Loc(parent, l.page) in CopyOver(m, ls, parent)
    ensures CopyOver(m, ls + {l}, parent) == CopyOver(m, ls, parent)[l := CopyOver(m, ls, parent)[Loc(parent, l.page)]]
  {
    assert CopyOver(m, ls, parent)[Loc(parent, l.page)] == m[Loc(parent, l.page)];
  }

  lemma CopyNone(m: Memory, child: nat, v: Vma, parent: nat)
    ensures CopyOver(m, FirstPages(child, v, 0), parent) == m
  {
  }

  lemma OwnPages(root: nat, v: Vma, n: nat)
    ensures forall l :: l in FirstPages(root, v, n) ==> l.root == root
  {
  }

  // ---- the wanted pages follow the areas

  lemma WantInsert(spaces: map<nat, Space>, want: map<Loc, PFlags>, root: nat, v: Vma)
    requires WantOk(spaces, want) && root in spaces && Good(spaces[root].areas)
    requires v.Shaped() && !Taken(spaces[root].areas, v.base) && RangeFree(spaces[root].areas, v.base, v.End())
    ensures WantOk(spaces[root := spaces[root].(areas := Insert(spaces[root].areas, v))],
                   Fill(want, Pages(root, v), ToPFlags(v.flags)))
  {
    var spaces' := spaces[root := spaces[root].(areas := Insert(spaces[root].areas, v))];
    var want' := Fill(want, Pages(root, v), ToPFlags(v.flags));
    forall l: Loc ensures PageWanted(spaces', want', l) {
      assert PageWanted(spaces, want, l);
      PagesContain(root, v, l);
      if l.root == root { InsertMeans(spaces[root].areas, v, l.page * 0x1000); }
    }
  }

  lemma WantRemove(spaces: map<nat, Space>, want: map<Loc, PFlags>, root: nat, i: nat)
    requires WantOk(spaces, want) && root in spaces && Good(spaces[root].areas) && i < |spaces[root].areas|
    ensures WantOk(spaces[root := spaces[root].(areas := DropAt(spaces[root].areas, i))],
                   want - Pages(root, spaces[root].areas[i]))
  {
    var areas := spaces[root].areas;
    var spaces' := spaces[root := spaces[root].(areas := DropAt(areas, i))];
    var want' := want - Pages(root, areas[i]);
    assert areas[i].Shaped();
    forall l: Loc ensures PageWanted(spaces', want', l) {
      assert PageWanted(spaces, want, l);
      PagesContain(root, areas[i], l);
      if l.root == root { DropAtMeans(areas, i, l.page * 0x1000); }
    }
  }

  /** Areas that mean the same want the same pages. */
  lemma WantSame(spaces: map<nat, Space>, want: map<Loc, PFlags>, root: nat, sp: Space)
    requires WantOk(spaces, want) && root in spaces
    requires forall a :: FlagsAt(sp.areas, a) == FlagsAt(spaces[root].areas, a)
    ensures WantOk(spaces[root := sp], want)
  {
    var spaces' := spaces[root := sp];
    forall l: Loc ensures PageWanted(spaces', want, l) { assert PageWanted(spaces, want, l); }
  }

  lemma WantNew(spaces: map<nat, Space>, want: map<Loc, PFlags>, root: nat, sp: Space)
    requires WantOk(spaces, want) && root !in spaces && sp.areas == []
    ensures WantOk(spaces[root := sp], want) && forall l :: l in want ==> l.root != root
  {
    var spaces' := spaces[root := sp];
    forall l: Loc ensures PageWanted(spaces', want, l) { assert PageWanted(spaces, want, l); }
    forall l | l in want ensures l.root != root { assert PageWanted(spaces, want, l); }
  }

  lemma WantGone(spaces: map<nat, Space>, want: map<Loc, PFlags>, root: nat)
    requires WantOk(spaces, want) && root in spaces && spaces[root].areas == []
    ensures WantOk(spaces - {root}, want) && forall l :: l in want ==> l.root != root
  {
    var spaces' := spaces - {root};
    forall l: Loc ensures PageWanted(spaces', want, l) { assert PageWanted(spaces, want, l); }
    forall l | l in want ensures l.root != root { assert PageWanted(spaces, want, l); }
  }

  /** The pages of an area are wanted with the access the area allows; those of free room are not. */
  lemma WantOfArea(spaces: map<nat, Space>, want: map<Loc, PFlags>, root: nat, i: nat, l: Loc)
    requires WantOk(spaces, want) && root in spaces && Good(spaces[root].areas) && i < |spaces[root].areas|
    requires l in Pages(root, spaces[root].areas[i])
    ensures l in want && want[l] == ToPFlags(spaces[root].areas[i].flags)
  {
    var areas := spaces[root].areas;
    assert areas[i].Shaped();
    PagesContain(root, areas[i], l);
    FlagsOf(areas, i, l.page * 0x1000);
    assert PageWanted(spaces, want, l);
  }

  lemma WantOfRoom(spaces: map<nat, Space>, want: map<Loc, PFlags>, root: nat, v: Vma, l: Loc)
    requires WantOk(spaces, want) && root in spaces && v.Shaped() && RangeFree(spaces[root].areas, v.base, v.End())
    requires l in Pages(root, v)
    ensures l !in want
  {
    PagesContain(root, v, l);
    assert PageWanted(spaces, want, l);
    assert !Mapped(spaces[root].areas, l.page * 0x1000);
  }

  // ---- a map that is refused after its pages have been mapped

  /** The first `n` pages of an area mapped to new frames, as _vma_allocate_pages does ... */
  function MapOps(v: Vma, frames: seq<nat>, flags: PFlags, n: nat): seq<PtOp>
    requires n <= |frames|
  {
    if n == 0 then [] else MapOps(v, frames, flags, n - 1) + [DoMap(v.base + (n - 1) * 0x1000, frames[n-1], flags)]
  }

  /** ... and unmapped, as _vma_free_pages does when rb_insert has refused the area. */
  function UnmapOps(v: Vma, n: nat): seq<PtOp> {
    if n == 0 then [] else UnmapOps(v, n - 1) + [DoUnmap(v.base + (n - 1) * 0x1000)]
  }

  lemma {:induction false} ApplyBoth(view: map<Loc, Leaf>, root: nat, first: seq<PtOp>, later: seq<PtOp>)
    ensures ApplyAll(view, root, first + later) == ApplyAll(ApplyAll(view, root, first), root, later)
  {
    if later == [] {
      assert first + later == first;
    } else {
      var front, last := later[..|later|-1], later[|later|-1];
      ApplyBoth(view, root, first, front);
      assert (first + later)[..|first + later|-1] == first + front;
    }
  }

  /** The maps differ at most on the pages of `ls`. */
  ghost predicate SameBut(a: map<Loc, Leaf>, b: map<Loc, Leaf>, ls: set<Loc>) {
    a - ls == b - ls
  }

  ghost predicate WithoutPages(a: map<Loc, Leaf>, b: map<Loc, Leaf>, ls: set<Loc>) {
    a == b - ls
  }

  lemma ApplyLast(view: map<Loc, Leaf>, root: nat, ops: seq<PtOp>, op: PtOp)
    ensures ApplyAll(view, root, ops + [op]) == Apply(ApplyAll(view, root, ops), root, op)
  {
    assert (ops + [op])[..|ops|] == ops;
  }

  lemma {:induction false} MapOpsMean(view: map<Loc, Leaf>, root: nat, v: Vma, frames: seq<nat>, flags: PFlags, n: nat)
    requires v.Shaped() && n <= |frames|
    ensures SameBut(ApplyAll(view, root, MapOps(v, frames, flags, n)), view, FirstPages(root, v, n))
  {
    if n == 0 {
      assert FirstPages(root, v, 0) == {};
    } else {
      hide FirstPages, ApplyAll, SameBut, MapOps;
      MapOpsMean(view, root, v, frames, flags, n - 1);
      MapOpsMore(view, root, v, frames, flags, n - 1);
    }
  }

  lemma MapOpsMore(view: map<Loc, Leaf>, root: nat, v: Vma, frames: seq<nat>, flags: PFlags, n: nat)
    requires v.Shaped() && n < |frames|
    requires SameBut(ApplyAll(view, root, MapOps(v, frames, flags, n)), view, FirstPages(root, v, n))
    ensures SameBut(ApplyAll(view, root, MapOps(v, frames, flags, n + 1)), view, FirstPages(root, v, n + 1))
  {
    hide FirstPages, ApplyAll, Apply, SameBut;
    var ops, op := MapOps(v, frames, flags, n), DoMap(v.base + n * 0x1000, frames[n], flags);
    assert MapOps(v, frames, flags, n + 1) == ops + [op];
    ApplyLast(view, root, ops, op);
    MapOpMeans(ApplyAll(view, root, ops), view, root, v, n, frames[n], flags);
  }

  lemma MapOpMeans(before: map<Loc, Leaf>, view: map<Loc, Leaf>, root: nat, v: Vma, n: nat, frame: nat, flags: PFlags)
    requires v.Shaped() && SameBut(before, view, FirstPages(root, v, n))
    ensures SameBut(Apply(before, root, DoMap(v.base + n * 0x1000, frame, flags)), view, FirstPages(root, v, n + 1))
  {
    hide FirstPages;
    PageStep(root, v, n);
    WithoutOneMore(before, view, FirstPages(root, v, n), Loc(root, v.base / 0x1000 + n), Leaf(frame, flags));
  }

  lemma WithoutOneMore(before: map<Loc, Leaf>, view: map<Loc, Leaf>, ls: set<Loc>, l: Loc, leaf: Leaf)
    requires SameBut(before, view, ls)
    ensures SameBut(before[l := leaf], view, ls + {l})
  {
    forall k | k in view && k !in ls ensures k in before && before[k] == view[k] { assert k in view - ls; }
    forall k | k in before && k !in ls ensures k in view { assert k in before - ls; }
  }

  lemma {:induction false} UnmapOpsMean(view: map<Loc, Leaf>, root: nat, v: Vma, n: nat)
    requires v.Shaped()
    ensures WithoutPages(ApplyAll(view, root, UnmapOps(v, n)), view, FirstPages(root, v, n))
    decreases n
  {
    if n == 0 {
      NoPages(view, root, v, Leaf(0, PFlags(false, false, false, false)));
    } else {
      hide FirstPages, ApplyAll, UnmapOps, WithoutPages;
      UnmapOpsMean(view, root, v, n - 1);
      UnmapOpsMore(view, root, v, n - 1);
    }
  }

  lemma UnmapOpsMore(view: map<Loc, Leaf>, root: nat, v: Vma, n: nat)
    requires v.Shaped() && WithoutPages(ApplyAll(view, root, UnmapOps(v, n)), view, FirstPages(root, v, n))
    ensures WithoutPages(ApplyAll(view, root, UnmapOps(v, n + 1)), view, FirstPages(root, v, n + 1))
  {
    hide FirstPages, ApplyAll;
    PageStep(root, v, n);
    var ops, op := UnmapOps(v, n), DoUnmap(v.base + n * 0x1000);
    assert UnmapOps(v, n + 1) == ops + [op];
    ApplyLast(view, root, ops, op);
  }

  /** A refused map takes away every page of its range: the areas stay, and lose the pages they have there. */
  lemma RefusedMapLoses(view: map<Loc, Leaf>, root: nat, v: Vma, frames: seq<nat>, flags: PFlags)
    requires v.Shaped() && |frames| == v.size / 0x1000
    ensures ApplyAll(view, root, MapOps(v, frames, flags, |frames|) + UnmapOps(v, |frames|)) == view - Pages(root, v)
  {
    var n := |frames|;
    var mapped := ApplyAll(view, root, MapOps(v, frames, flags, n));
    ApplyBoth(view, root, MapOps(v, frames, flags, n), UnmapOps(v, n));
    MapOpsMean(view, root, v, frames, flags, n);
    UnmapOpsMean(mapped, root, v, n);
    assert FirstPages(root, v, n) == Pages(root, v);
  }

  // ---- whole address spaces

  function PageCount(vs: seq<Vma>): nat {
    if vs == [] then 0 else PageCount(vs[..|vs|-1]) + vs[|vs|-1].size / 0x1000
  }

  lemma {:induction false} PageCountPrefix(vs: seq<Vma>, i: nat)
    requires i <= |vs|
    ensures PageCount(vs[..i]) <= PageCount(vs)
    ensures i < |vs| ==> PageCount(vs[..i+1]) == PageCount(vs[..i]) + vs[i].size / 0x1000
    decreases |vs|
  {
    if i < |vs| {
      assert vs[..i+1][..i] == vs[..i];
      var front := vs[..|vs|-1];
      assert front[..i] == vs[..i];
      PageCountPrefix(front, i);
    } else {
      assert vs[..i] == vs;
    }
  }

  function Covered(root: nat, vs: seq<Vma>): set<Loc> {
    if vs == [] then {} else Covered(root, vs[..|vs|-1]) + Pages(root, vs[|vs|-1])
  }

  lemma CoveredStep(root: nat, vs: seq<Vma>, i: nat)
    requires i < |vs|
    ensures Covered(root, vs[..i+1]) == Covered(root, vs[..i]) + Pages(root, vs[i])
  {
    assert vs[..i+1][..i] == vs[..i];
  }

  lemma {:induction false} CoveredExact(root: nat, vs: seq<Vma>, l: Loc)
    requires AllShaped(vs)
    ensures l in Covered(root, vs) <==> l.root == root && Mapped(vs, l.page * 0x1000)
  {
    if vs != [] {
      var front, v := vs[..|vs|-1], vs[|vs|-1];
      forall i | 0 <= i < |front| ensures front[i].Shaped() { assert vs[i].Shaped(); }
      assert v.Shaped();
      CoveredExact(root, front, l);
      PagesContain(root, v, l);
      assert Mapped(front, l.page * 0x1000) ==> Mapped(vs, l.page * 0x1000);
      assert v.Contains(l.page * 0x1000) ==> Mapped(vs, l.page * 0x1000);
    }
  }

  lemma AreaPagesOwn(root: nat, v: Vma)
    ensures forall l :: l in Pages(root, v) ==> l.root == root
  {
  }

  lemma CopyTwice(m: Memory, ls: set<Loc>, ks: set<Loc>, parent: nat)
    requires forall l :: l in ls + ks ==> l.root != parent
    ensures CopyOver(CopyOver(m, ls, parent), ks, parent) == CopyOver(m, ls + ks, parent)
  {
    var once, twice := CopyOver(m, ls, parent), CopyOver(CopyOver(m, ls, parent), ks, parent);
    var both := CopyOver(m, ls + ks, parent);
    forall l: Loc ensures (l in twice <==> l in both) && (l in twice ==> twice[l] == both[l]) {
      CopyAt(m, ls, parent, l);
      CopyAt(m, ls, parent, Loc(parent, l.page));
      CopyAt(once, ks, parent, l);
      CopyAt(m, ls + ks, parent, l);
    }
    assert twice.Keys == both.Keys;
  }

  lemma CopyAt(m: Memory, ls: set<Loc>, parent: nat, l: Loc)
    ensures var c, p := CopyOver(m, ls, parent), Loc(parent, l.page);
      if l in ls && p in m then l in c && c[l] == m[p] else (l in c <==> l in m) && (l in m ==> c[l] == m[l])
  {
  }

  /** The areas of a child are the areas of its parent, one after another. */
  lemma AppendArea(vs: seq<Vma>, i: nat)
    requires Good(vs) && i < |vs|
    ensures Good(vs[..i]) && vs[i].Shaped() && RangeFree(vs[..i], vs[i].base, vs[i].End())
      && !Taken(vs[..i], vs[i].base)
    ensures Insert(vs[..i], vs[i]) == vs[..i+1]
  {
    var front := vs[..i];
    forall j, k | 0 <= j < k < |front| ensures front[j].Below(front[k]) { assert vs[j].Below(vs[k]); }
    forall j | 0 <= j < |front| ensures front[j].Shaped() && front[j].Below(vs[i]) {
      assert vs[j].Shaped() && vs[j].Below(vs[i]);
    }
    forall j | 0 <= j < |front| ensures front[j].base < vs[i].base { assert front[j].Shaped()
      && front[j].Below(vs[i]); }
    LowerBoundIs(front, vs[i].base, i);
  }

  /** What a fork makes of everybody's memory: the child starts with what the parent holds. */
  function ForkMem(m: Memory, parent: nat, child: nat): Memory {
    CopyOver(m, set l | l in m && l.root == parent :: Loc(child, l.page), parent)
  }

  lemma ForkMemAt(m: Memory, parent: nat, child: nat, page: nat)
    requires Loc(parent, page) in m && parent != child
    ensures var l, c, m' := Loc(parent, page), Loc(child, page), ForkMem(m, parent, child);
      l in m' && c in m' && m'[l] == m'[c] == m[l]
  {
    assert Loc(child, page) in set l | l in m && l.root == parent :: Loc(child, l.page);
  }

  lemma ForkMemExact(m: Memory, spaces: map<nat, Space>, want: map<Loc, PFlags>, parent: nat, child: nat)
    requires WantOk(spaces, want) && want.Keys == m.Keys && parent in spaces && AllShaped(spaces[parent].areas)
    ensures CopyOver(m, Covered(child, spaces[parent].areas), parent) == ForkMem(m, parent, child)
  {
    forall p: nat ensures Loc(child, p) in Covered(child, spaces[parent].areas) <==> Loc(parent, p) in m {
      CoveredExact(child, spaces[parent].areas, Loc(child, p));
      FlagsMapped(spaces[parent].areas, p * 0x1000);
      assert PageWanted(spaces, want, Loc(parent, p));
    }
    forall l | l in Covered(child, spaces[parent].areas) ensures l.root == child {
      CoveredExact(child, spaces[parent].areas, l);
    }
  }

  lemma {:induction false} CoveredOwn(root: nat, vs: seq<Vma>)
    ensures forall l :: l in Covered(root, vs) ==> l.root == root
  {
    if vs != [] {
      CoveredOwn(root, vs[..|vs|-1]);
      AreaPagesOwn(root, vs[|vs|-1]);
    }
  }

  lemma CoveredNone(m: Memory, parent: nat, child: nat, vs: seq<Vma>)
    ensures CopyOver(m, Covered(child, vs[..0]), parent) == m
  {
    assert Covered(child, vs[..0]) == {};
  }

  lemma CopyMore(m: Memory, child: nat, vs: seq<Vma>, i: nat, parent: nat)
    requires i < |vs| && parent != child
    ensures CopyOver(CopyOver(m, Covered(child, vs[..i]), parent), Pages(child, vs[i]), parent)
         == CopyOver(m, Covered(child, vs[..i+1]), parent)
  {
    CoveredStep(child, vs, i);
    CoveredOwn(child, vs[..i]);
    AreaPagesOwn(child, vs[i]);
    hide Covered, Pages, CopyOver;
    CopyTwice(m, Covered(child, vs[..i]), Pages(child, vs[i]), parent);
  }

  // ---- the ideal: private memories

  /** The address spaces as their users see them: areas, and what every page of them holds. */
  datatype World = World(spaces: map<nat, Space>, mem: Memory)

  datatype Call =
    | DoCreate
    | DoMapAnonymous(root: nat, size: nat, flags: bv32)
    | DoFork(root: nat)
    | DoStore(root: nat, vaddr: nat, b: bv8)
    | DoUnmapRange(root: nat, addr: nat, size: nat)
    | DoProtect(root: nat, addr: nat, size: nat, flags: bv32)
    | DoDestroy(root: nat)

  predicate Covers(spaces: map<nat, Space>, l: Loc) {
    l.root in spaces && Find(spaces[l.root].areas, l.page * 0x1000) >= 0
  }

  predicate MayStore(areas: seq<Vma>, vaddr: nat) {
    var f := Find(areas, AlignDown(vaddr));
    f >= 0 && Has(areas[f].flags, WRITABLE) && Has(areas[f].flags, USER)
  }

  /** Where vmm_is_accessible finds write access for the user, every store is admitted, and nowhere else. */
  lemma AccessibleMayStore(areas: seq<Vma>, base: nat, end: nat)
    requires Good(areas) && base % PAGE == 0 && end % PAGE == 0
    ensures Accessible(areas, base, end, WRITABLE | USER) <==> forall a: nat :: base <= a < end ==> MayStore(areas, a)
  {
    AccessibleExact(areas, base, end, WRITABLE | USER);
    hide Allows, AlignDown, Good;
    var access := WRITABLE | USER;
    forall a: nat ensures Allows(areas, a, access) <==> MayStore(areas, a) {
      StoreBits(areas, AlignDown(a));
      SamePageAllows(areas, a, access);
    }
    hide MayStore;
    if forall a: nat :: base <= a < end ==> MayStore(areas, a) {
      forall a | base <= a < end ensures Allows(areas, a, access) { assert MayStore(areas, a); }
    }
  }

  lemma StoreBits(areas: seq<Vma>, a: nat)
    requires Good(areas)
    ensures Allows(areas, a, WRITABLE | USER) <==>
      Find(areas, a) >= 0 && Has(areas[Find(areas, a)].flags, WRITABLE) && Has(areas[Find(areas, a)].flags, USER)
  {
    FindExact(areas, a);
    FlagsMapped(areas, a);
    var f := Find(areas, a);
    if f >= 0 {
      FlagsOf(areas, f, a);
      assert SingleBit(WRITABLE) && SingleBit(USER) && Has(WRITABLE | USER, WRITABLE) && Has(WRITABLE | USER, USER);
    }
  }

  /** Areas consist of whole pages. */
  lemma SamePageAllows(areas: seq<Vma>, a: nat, access: bv32)
    requires Good(areas)
    ensures Allows(areas, a, access) <==> Allows(areas, AlignDown(a), access)
  {
    var d := AlignDown(a);
    forall i | 0 <= i < |areas| ensures areas[i].Contains(a) <==> areas[i].Contains(d) { assert areas[i].Shaped(); }
    FlagsMapped(areas, a);
    FlagsMapped(areas, d);
    if i :| 0 <= i < |areas| && areas[i].Contains(a) {
      FlagsOf(areas, i, a);
      FlagsOf(areas, i, d);
    }
  }

  predicate Sensible(spaces: map<nat, Space>, c: Call) {
    match c
    case DoCreate => true
    case DoMapAnonymous(r, size, flags) =>
      r in spaces && size > 0 && !Has(flags, LAZY) && !Has(flags, SHARED) && !Has(flags, FIXED)
    case DoFork(r) => r in spaces
    case DoStore(r, v, _) => r in spaces && UserAddress(v) && MayStore(spaces[r].areas, v)
    case DoUnmapRange(r, _, size) => r in spaces && size > 0
    case DoProtect(r, _, size, flags) => r in spaces && size > 0 && !Has(flags, SHARED)
    case DoDestroy(r) => r in spaces
  }

  /** What is left of the memory when only the pages of `spaces` stay. */
  function Surviving(m: Memory, spaces: map<nat, Space>): Memory {
    map l | l in m && Covers(spaces, l) :: m[l]
  }

  lemma SurvivingIs(m: Memory, m': Memory, spaces: map<nat, Space>)
    requires forall l :: l in m' ==> l in m && m'[l] == m[l]
    requires forall l: Loc :: l in m' <==> Covers(spaces, l)
    ensures m' == Surviving(m, spaces)
  {
    hide Covers;
  }

  function MemOfOthers(m: Memory, root: nat): Memory {
    map l | l in m && l.root != root :: m[l]
  }

  ghost predicate Created(w: World, w': World, r: nat) {
    r !in w.spaces && w' == w.(spaces := w.spaces[r := Space([], MMAP_BASE)])
  }

  ghost predicate ForkedWorld(w: World, w': World, parent: nat, child: nat) {
    parent in w.spaces && child !in w.spaces
    && w' == World(w.spaces[child := w.spaces[parent]], ForkMem(w.mem, parent, child))
  }

  ghost predicate MappedAnonymous(w: World, w': World, r: nat, size: nat, flags: bv32)
    requires r in w.spaces && size > 0
  {
    var base := Gap(w.spaces[r].areas, w.spaces[r].mmapBase, AlignUp(size));
    var area := Vma(base, AlignUp(size), flags | ALLOCATED);
    if base == 0 then w' == w
    else w' == World(w.spaces[r := Space(Insert(w.spaces[r].areas, area), base)], Fill(w.mem, Pages(r, area), Zeroes()))
  }

  ghost predicate Stored(w: World, w': World, r: nat, vaddr: nat, b: bv8) {
    var l := Loc(r, vaddr / 0x1000);
    l in w.mem && |w.mem[l]| == 4096 && w' == w.(mem := w.mem[l := w.mem[l][vaddr % 4096 := b]])
  }

  function UnmappedSpaces(spaces: map<nat, Space>, r: nat, addr: nat, size: nat): map<nat, Space>
    requires r in spaces
  {
    var base := AlignDown(addr);
    spaces[r := spaces[r].(areas := Unmap(spaces[r].areas, base, base + AlignUp(size)))]
  }

  function ProtectedSpaces(spaces: map<nat, Space>, r: nat, addr: nat, size: nat, flags: bv32): map<nat, Space>
    requires r in spaces
  {
    var base := AlignDown(addr);
    spaces[r := spaces[r].(areas := Protect(spaces[r].areas, base, base + AlignUp(size), flags).areas)]
  }

  /** What a call means, with no frames, no sharing and no faults in sight. */
  ghost predicate Ideal(w: World, c: Call, w': World)
    requires Sensible(w.spaces, c)
  {
    match c
    case DoCreate => exists r :: Created(w, w', r)
    case DoMapAnonymous(r, size, flags) => MappedAnonymous(w, w', r, size, flags)
    case DoFork(r) => exists child :: ForkedWorld(w, w', r, child)
    case DoStore(r, vaddr, b) => Stored(w, w', r, vaddr, b)
    case DoUnmapRange(r, addr, size) =>
      var left := UnmappedSpaces(w.spaces, r, addr, size); w' == World(left, Surviving(w.mem, left))
    case DoProtect(r, addr, size, flags) => w' == w.(spaces := ProtectedSpaces(w.spaces, r, addr, size, flags))
    case DoDestroy(r) => w' == World(w.spaces - {r}, MemOfOthers(w.mem, r))
  }

  /** The frames that must be free for a call, and the most it takes: pages, and up to three tables for each. */
  function Cost(spaces: map<nat, Space>, c: Call): nat
    requires Sensible(spaces, c)
  {
    match c
    case DoCreate => 1
    case DoMapAnonymous(r, size, flags) => 4 * (AlignUp(size) / 0x1000)
    case DoFork(r) => 1 + 3 * PageCount(spaces[r].areas)
    case DoStore(r, vaddr, b) => 1
    case _ => 0
  }

  /** What a machine has besides what its users see: the free frames, those and the ones that hold tables, the pages
      whose frame is marked copy-on-write and counted as shared, and the tables that user code cannot get past. */
  datatype Stock = Stock(room: nat, spare: nat, shared: set<Loc>, barred: set<Pos>)

  /** The frames a call takes for pages. */
  function PagesTaken(spaces: map<nat, Space>, c: Call): nat
    requires Sensible(spaces, c)
  {
    match c
    case DoMapAnonymous(r, size, _) =>
      if Gap(spaces[r].areas, spaces[r].mmapBase, AlignUp(size)) == 0 then 0 else AlignUp(size) / 0x1000
    case _ => 0
  }

  /** How a call changes what is free or holds tables: a store may take a frame for a copy, and a call other than a map
      neither takes nor gives back any. */
  predicate SpareStep(spaces: map<nat, Space>, k: Stock, c: Call, k': Stock)
    requires Sensible(spaces, c)
  {
    if c.DoStore? then k'.spare <= k.spare <= k'.spare + 1 else k.spare == k'.spare + PagesTaken(spaces, c)
  }

  predicate InRange(l: Loc, root: nat, base: nat, end: nat) {
    l.root == root && base <= l.page * 0x1000 < end
  }

  /** A change of protection gives no write access to a shared page. */
  ghost predicate Harmless(shared: set<Loc>, c: Call) {
    c.DoProtect? && Has(c.flags, WRITABLE) ==>
      forall l :: l in shared ==> !InRange(l, c.root, AlignDown(c.addr), AlignDown(c.addr) + AlignUp(c.size))
  }

  /** User code can get at the page it stores to. */
  ghost predicate Reachable(barred: set<Pos>, c: Call) {
    c.DoStore? ==> PathOpen(barred, c.root, c.vaddr)
  }

  /** The spaces in which a call may hang tables that user code cannot get past: those where it maps pages that are not
      for user code. */
  function Sealed(w: World, c: Call, w': World): set<nat> {
    match c
    case DoMapAnonymous(r, _, flags) => BarredBy(Has(flags, USER), r)
    case DoProtect(r, _, _, flags) => BarredBy(Has(flags, USER), r)
    case DoFork(r) =>
      if r in w.spaces && AllUser(w.spaces[r].areas) then {} else w'.spaces.Keys - w.spaces.Keys
    case _ => {}
  }

  /** The spaces whose pages a call may come to share: a parent and its child. */
  function Family(w: World, c: Call, w': World): set<nat> {
    if c.DoFork? then {c.root} + (w'.spaces.Keys - w.spaces.Keys) else {}
  }

  /** One step of a run: the call is made exactly when it makes sense, there is memory for it, it is harmless and the
      page it stores to can be reached; then it does what it means, and otherwise nothing. Only a fork shares pages. */
  ghost predicate StepOk(w: World, k: Stock, c: Call, made: bool, w': World, k': Stock) {
    && (made <==> Sensible(w.spaces, c) && Cost(w.spaces, c) <= k.room && Harmless(k.shared, c)
                  && Reachable(k.barred, c))
    && if made
       then && Ideal(w, c, w') && k'.room >= k.room - Cost(w.spaces, c) && SpareStep(w.spaces, k, c, k')
            && NewlyShared(k.shared, k'.shared, Family(w, c, w')) && NewlyBarred(k.barred, k'.barred, Sealed(w, c, w'))
       else w' == w && k' == k
  }

  /** Tables belong to address spaces. */
  ghost predicate BarredInside(w: World, k: Stock) {
    forall q :: q in k.barred ==> q.root in w.spaces
  }

  ghost predicate RunSteps(trace: seq<World>, stock: seq<Stock>, calls: seq<Call>, done: seq<bool>) {
    && |trace| == |calls| + 1 && |stock| == |calls| + 1 && |done| == |calls|
    && (forall i :: 0 <= i < |calls| ==> StepOk(trace[i], stock[i], calls[i], done[i], trace[i+1], stock[i+1]))
    && (forall i :: 0 <= i <= |calls| ==> WellFormed(trace[i]) && BarredInside(trace[i], stock[i]))
  }

  /** What the calls from the `i`-th on cost together, those that make no sense being free. */
  ghost function Budget(trace: seq<World>, calls: seq<Call>, i: nat): nat
    requires |trace| > |calls| && i <= |calls|
    decreases |calls| - i
  {
    if i == |calls| then 0
    else (if Sensible(trace[i].spaces, calls[i]) then Cost(trace[i].spaces, calls[i])
      else 0) + Budget(trace, calls, i + 1)
  }

  /** With memory for all of them at the start, every call is made that makes sense, is harmless and stores to a page
      that can be reached. */
  lemma {:induction false} FundedCallsAreMade(trace: seq<World>, stock: seq<Stock>, calls: seq<Call>, done: seq<bool>,
                                              i: nat)
    requires RunSteps(trace, stock, calls, done) && i <= |calls| && stock[i].room >= Budget(trace, calls, i)
    ensures forall k :: i <= k < |calls| ==>
      (done[k] <==> Sensible(trace[k].spaces, calls[k]) && Harmless(stock[k].shared, calls[k])
                    && Reachable(stock[k].barred, calls[k]))
    decreases |calls| - i
  {
    if i < |calls| {
      hide Ideal, Sensible, Cost, WellFormed, Harmless, NewlyShared, Reachable, NewlyBarred, Sealed, SpareStep;
      assert StepOk(trace[i], stock[i], calls[i], done[i], trace[i+1], stock[i+1]);
      FundedCallsAreMade(trace, stock, calls, done, i + 1);
    }
  }

  /** The frames the first `n` calls take for pages and, at most, for copies. */
  function TakenBy(trace: seq<World>, calls: seq<Call>, done: seq<bool>, n: nat, copies: bool): nat
    requires |trace| > |calls| == |done| && n <= |calls|
    requires forall i :: 0 <= i < n && done[i] ==> Sensible(trace[i].spaces, calls[i])
  {
    if n == 0 then 0
    else if !done[n-1] then TakenBy(trace, calls, done, n - 1, copies)
    else if copies && calls[n-1].DoStore? then TakenBy(trace, calls, done, n - 1, copies) + 1
    else TakenBy(trace, calls, done, n - 1, copies) + PagesTaken(trace[n-1].spaces, calls[n-1])
  }

  /** Over a whole run the frames that are free or hold tables shrink by the pages that were mapped, and at most one for
      each store. Whatever is unmapped or destroyed, its pages never come back, but every table does. */
  lemma {:induction false} FramesAccounted(trace: seq<World>, stock: seq<Stock>, calls: seq<Call>, done: seq<bool>,
                                           n: nat)
    requires RunSteps(trace, stock, calls, done) && n <= |calls|
    ensures forall i :: 0 <= i < n && done[i] ==> Sensible(trace[i].spaces, calls[i])
    ensures stock[n].spare + TakenBy(trace, calls, done, n, false) <= stock[0].spare
    ensures stock[0].spare <= stock[n].spare + TakenBy(trace, calls, done, n, true)
  {
    hide Ideal, Sensible, Cost, WellFormed, Harmless, NewlyShared, Reachable, NewlyBarred, Sealed, Family;
    if n > 0 {
      FramesAccounted(trace, stock, calls, done, n - 1);
      assert StepOk(trace[n-1], stock[n-1], calls[n-1], done[n-1], trace[n-1+1], stock[n-1+1]);
    }
  }

  /** Only a space that is destroyed goes. */
  lemma SpaceStays(w: World, c: Call, w': World, r: nat)
    requires Sensible(w.spaces, c) && Ideal(w, c, w') && r in w.spaces && c != DoDestroy(r)
    ensures r in w'.spaces
  {
    hide Vmas.Unmap, Protect, Gap, Insert, Has, AlignUp, AlignDown, Find, Pages, PageCount;
    match c
    case DoFork(parent) =>
      var child :| ForkedWorld(w, w', parent, child);
    case _ =>
  }

  /** The pages of a space that is never forked are never shared, so that every change of its protection is harmless. */
  lemma {:induction false} UnforkedStaysUnshared(trace: seq<World>, stock: seq<Stock>, calls: seq<Call>,
                                                 done: seq<bool>, r: nat, n: nat)
    requires RunSteps(trace, stock, calls, done) && n <= |calls| && r in trace[0].spaces
    requires forall l :: l in stock[0].shared ==> l.root != r
    requires forall k :: 0 <= k < n ==> calls[k] != DoFork(r) && calls[k] != DoDestroy(r)
    ensures r in trace[n].spaces && forall l :: l in stock[n].shared ==> l.root != r
    ensures forall c: Call :: c.DoProtect? && c.root == r ==> Harmless(stock[n].shared, c)
  {
    hide Ideal, Sensible, Cost, WellFormed, Reachable, NewlyBarred, Sealed, SpareStep;
    if n > 0 {
      UnforkedStaysUnshared(trace, stock, calls, done, r, n - 1);
      var w, c, w' := trace[n-1], calls[n-1], trace[n];
      assert StepOk(w, stock[n-1], c, done[n-1], trace[n-1+1], stock[n-1+1]);
      if done[n-1] { SpaceStays(w, c, w', r); }
    }
  }

  /** While every page that is mapped in a space is for user code, user code gets past all its tables, so that every
      store its areas allow can be made. A space that does not exist yet has no tables. */
  lemma {:induction false} UserSpaceStaysOpen(trace: seq<World>, stock: seq<Stock>, calls: seq<Call>, done: seq<bool>,
                                              r: nat, m: nat, n: nat)
    requires RunSteps(trace, stock, calls, done) && m <= n <= |calls|
    requires r !in trace[m].spaces || forall q :: q in stock[m].barred ==> q.root != r
    requires forall k :: m <= k < n ==> r !in Sealed(trace[k], calls[k], trace[k+1])
    ensures forall q :: q in stock[n].barred ==> q.root != r
    ensures forall c: Call :: c.DoStore? && c.root == r ==> Reachable(stock[n].barred, c)
    decreases n
  {
    hide Ideal, Sensible, Cost, WellFormed, Harmless, NewlyShared, Sealed, Family, SpareStep;
    assert BarredInside(trace[m], stock[m]);
    if n > m {
      UserSpaceStaysOpen(trace, stock, calls, done, r, m, n - 1);
      assert StepOk(trace[n-1], stock[n-1], calls[n-1], done[n-1], trace[n-1+1], stock[n-1+1]);
    }
  }

  /** The address space a call is made on. */
  function Target(c: Call): set<nat> {
    match c
    case DoCreate => {}
    case _ => {c.root}
  }

  /** The pages of the memory are the pages of the areas. */
  ghost predicate WellFormed(w: World) {
    forall l: Loc :: l in w.mem <==> Covers(w.spaces, l)
  }

  /** Isolation: a call on one address space leaves the areas and the contents of every other one alone. */
  lemma CallsAreIsolated(w: World, c: Call, w': World, r: nat, page: nat)
    requires WellFormed(w) && Sensible(w.spaces, c) && Ideal(w, c, w')
    requires r in w.spaces && (r !in Target(c) || c.DoFork?)
    ensures r in w'.spaces && w'.spaces[r] == w.spaces[r]
    ensures var l := Loc(r, page); (l in w'.mem <==> l in w.mem) && (l in w.mem ==> w'.mem[l] == w.mem[l])
  {
    hide Vmas.Unmap, Protect, Gap, Insert, Has, AlignUp, AlignDown, Find, Pages, PageCount;
    var l := Loc(r, page);
    assert l in w.mem <==> Covers(w.spaces, l);
    match c
    case DoFork(parent) =>
      var child :| ForkedWorld(w, w', parent, child);
    case DoMapAnonymous(root, size, flags) =>
      var base := Gap(w.spaces[root].areas, w.spaces[root].mmapBase, AlignUp(size));
      AreaPagesOwn(root, Vma(base, AlignUp(size), flags | ALLOCATED));
    case _ =>
  }

  /** ... and so does a whole run of calls on other address spaces, with forks of this one among them. */
  lemma {:induction false} RunsAreIsolated(trace: seq<World>, stock: seq<Stock>, calls: seq<Call>, done: seq<bool>,
                                           r: nat, page: nat, n: nat)
    requires RunSteps(trace, stock, calls, done) && n <= |calls| && r in trace[0].spaces
    requires forall k :: 0 <= k < n ==> r !in Target(calls[k]) || calls[k].DoFork?
    ensures r in trace[n].spaces && trace[n].spaces[r] == trace[0].spaces[r]
    ensures var l := Loc(r, page);
      (l in trace[n].mem <==> l in trace[0].mem) && (l in trace[0].mem ==> trace[n].mem[l] == trace[0].mem[l])
  {
    if n > 0 {
      hide Ideal, Sensible, Cost, WellFormed, Target, Harmless, NewlyShared, Reachable, NewlyBarred, Sealed, SpareStep;
      RunsAreIsolated(trace, stock, calls, done, r, page, n - 1);
      var w, c, w' := trace[n-1], calls[n-1], trace[n];
      assert StepOk(w, stock[n-1], c, done[n-1], trace[n-1+1], stock[n-1+1]) && WellFormed(w);
      if done[n-1] { CallsAreIsolated(w, c, w', r, page); }
    }
  }
}
