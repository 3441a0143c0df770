/** vmm_protect of kernel/src/mm/vmm.c with its pages: what it keeps, and when address spaces stay private. Then a run
    whose store reaches another space, and a run whose store does not reach its page. */
module Protection {
  import opened FrameStates
  import opened FrameAllocator
  import opened PageTables
  import opened Paging
  import opened CowPages
  import opened Vmas
  import opened AreaPages
  import opened AddressSpaces

  /** What holds of a machine whether or not its address spaces are isolated. */
  ghost predicate LoosePages(m: Machine)
    reads m`data, m`want, m.pt, m.pt.pmm, m.pt.pmm.db
  {
    m.pt.Valid() && PagesBook(m.pt.pmm.Abs(), m.pt.tables.Keys, m.pt.view, m.want, m.data)
  }

  ghost predicate Loose(m: Machine)
    reads m, m.pt, m.pt.pmm, m.pt.pmm.db
  {
    && LoosePages(m) && WantOk(m.spaces, m.want)
    && (forall r :: r in m.spaces ==> SpaceOk(m.spaces[r]))
    && (forall r :: m.pt.IsRoot(r) <==> r in m.spaces)
  }

  lemma ValidExact(m: Machine)
    ensures m.Valid() <==> Loose(m) && Isolated(m.pt.view)
  {
    hide PagesBook, PagesOk, PageTable.Valid, WantOk, SpaceOk, Isolated;
    BookAndIsolation(m.pt.pmm.Abs(), m.pt.tables.Keys, m.pt.view, m.want, m.data);
  }

  // ---- one page

  /** unmap_page and map_page in turn. Memory for the tables that unmap_page gives back is never short when map_page
      asks for it again. */
  method Remap(m: Machine, root: nat, vaddr: nat, frame: nat, flags: PFlags)
    returns (ghost s1: State, ghost tables1: set<nat>, ghost n: nat)
    requires LoosePages(m) && m.pt.IsRoot(root) && UserAddress(vaddr) && m.pt.Here(root, vaddr) in m.pt.view
    requires m.pt.view[m.pt.Here(root, vaddr)].frame == frame
    modifies m.pt, m.pt.pmm, m.pt.pmm.db
    ensures m.pt.Valid() && m.Room() >= old(m.Room()) && m.Spare() == old(m.Spare())
    ensures SameRoots(old(m.pt.at), m.pt.at)
    ensures NewlyBarred(old(m.Barred()), m.Barred(), BarredBy(flags.user, root))
    ensures m.pt.view == old(m.pt.view)[m.pt.Here(root, vaddr) := Leaf(frame, flags)]
    ensures frame < |old(m.pt.pmm.Abs()).frames| == |s1.frames| && FrameStates.Valid(s1) && n <= |s1.free|
    ensures tables1 <= old(m.pt.tables.Keys)
    ensures Returned(Drop(old(m.pt.pmm.Abs()), frame), s1, old(m.pt.tables.Keys) - tables1)
    ensures m.pt.pmm.Abs() == Add(AllocN(s1, n), frame)
  {
    hide FrameStates.Valid, Pmm.Sound, Pmm.Abs, Tree, Denotes, Leads, FramesOk, Drop, Add, AllocN, OfOthers, SameExcess,
         Returned, EntryBook, NoVacantBut, UserAddress, Missing, Mappable, ViaLess, ViaGrown, NewlyBarred, BarredOf;
    ghost var s, tables, view, l := m.pt.pmm.Abs(), m.pt.tables.Keys, m.pt.view, m.pt.Here(root, vaddr);
    m.pt.UnmapPage(root, vaddr);
    s1, tables1 := m.pt.pmm.Abs(), m.pt.tables.Keys;
    ghost var via1 := m.pt.via;
    BetweenUnmapAndMap(s, tables, view, m.want, m.data, l, s1, tables1);
    DropRoom(s, tables, view, m.want, m.data, l, s1, tables1);
    n := m.pt.MapNew(root, vaddr, frame, flags);
    LessThenGrown(old(m.pt.via), via1, m.pt.via, root, flags.user);
    ReturnedLength(s, frame, s1, tables - tables1);
  }

  lemma ReturnedLength(s: State, f: nat, s1: State, gone: set<nat>)
    requires f < |s.frames| && Returned(Drop(s, f), s1, gone)
    ensures |s1.frames| == |s.frames|
  {
  }

  /** One turn of the page loop of vmm_protect. The frame is not freed in between. */
  method ReprotectPage(m: Machine, root: nat, vaddr: nat, flags: PFlags)
    requires LoosePages(m) && m.pt.IsRoot(root) && UserAddress(vaddr) && m.pt.Here(root, vaddr) in m.pt.view
    modifies m`want, m.pt, m.pt.pmm, m.pt.pmm.db
    ensures LoosePages(m) && m.Mem() == old(m.Mem()) && m.Room() >= old(m.Room()) && m.Spare() == old(m.Spare())
    ensures SameRoots(old(m.pt.at), m.pt.at)
    ensures NewlyBarred(old(m.Barred()), m.Barred(), BarredBy(flags.user, root))
    ensures m.pt.view == Reprotected(old(m.pt.view), m.pt.Here(root, vaddr), flags)
    ensures m.want == old(m.want)[m.pt.Here(root, vaddr) := flags]
    ensures SameRecords(old(m.pt.pmm.Abs()), old(m.pt.view), m.pt.pmm.Abs())
  {
    hide FrameStates.Valid, Pmm.Sound, Pmm.Abs, Tree, Denotes, Leads, FramesOk, Drop, Add, AllocN, Returned, EntryBook,
         Contents, UserAddress, SameRecords, SameRoots, NewlyBarred, BarredOf;
    ghost var s, tables, view, l := m.pt.pmm.Abs(), m.pt.tables.Keys, m.pt.view, m.pt.Here(root, vaddr);
    var frame := m.pt.GetPaddr(root, vaddr);
    if frame != 0 {
      ghost var s1, tables1, n := Remap(m, root, vaddr, frame, flags);
      RemapKeepsRecords(s, tables, view, m.want, m.data, l, s1, tables1, n);
      assert m.pt.view == Reprotected(view, l, flags);
      CowPages.ReprotectPage(s, tables, view, m.want, m.data, l, flags, m.pt.pmm.Abs(), m.pt.tables.Keys);
    }
    m.want := m.want[l := flags];
  }

  // ---- an area

  /** The pages of `ls` with other flags. */
  ghost function Reflagged(view: map<Loc, Leaf>, ls: set<Loc>, flags: PFlags): map<Loc, Leaf> {
    map l | l in view :: if l in ls then view[l].(flags := flags) else view[l]
  }

  lemma ReflaggedNone(view: map<Loc, Leaf>, root: nat, v: Vma, flags: PFlags)
    ensures Reflagged(view, FirstPages(root, v, 0), flags) == view
  {
    assert FirstPages(root, v, 0) == {};
  }

  lemma ReflaggedStep(view: map<Loc, Leaf>, ls: set<Loc>, l: Loc, flags: PFlags)
    requires l in view
    ensures Reflagged(view, ls + {l}, flags) == Reprotected(Reflagged(view, ls, flags), l, flags)
  {
  }

  /** The same places map the same frames. */
  ghost predicate SameFrames(view: map<Loc, Leaf>, view': map<Loc, Leaf>) {
    view'.Keys == view.Keys && forall l :: l in view ==> view'[l].frame == view[l].frame
  }

  lemma RecordsTwice(s: State, view: map<Loc, Leaf>, s1: State, view1: map<Loc, Leaf>, s2: State)
    requires SameRecords(s, view, s1) && SameRecords(s1, view1, s2) && SameFrames(view, view1)
    ensures SameRecords(s, view, s2)
  {
    forall l | l in view ensures view[l].frame < |s.frames| && s2.frames[view[l].frame] == s.frames[view[l].frame] {
      assert l in view1;
    }
  }

  lemma SharedAcross(s: State, view: map<Loc, Leaf>, s': State, view': map<Loc, Leaf>)
    requires SameRecords(s, view, s') && SameFrames(view, view')
    ensures SharedPages(s', view') == SharedPages(s, view)
  {
    forall l ensures l in SharedPages(s', view') <==> l in SharedPages(s, view) {
      assert l in view' <==> l in view;
    }
  }

  lemma NoRecords(m: Machine)
    requires LoosePages(m)
    ensures SameRecords(m.pt.pmm.Abs(), m.pt.view, m.pt.pmm.Abs())
  {
    forall l | l in m.pt.view ensures m.pt.view[l].frame < |m.pt.pmm.Abs().frames| {
      assert EntryBook(m.pt.pmm.Abs(), m.pt.view, m.want, m.data, l);
    }
  }

  /** The page loop of vmm_protect. */
  method ProtectPages(m: Machine, root: nat, v: Vma, flags: PFlags)
    requires LoosePages(m) && m.pt.IsRoot(root) && v.Shaped() && v.End() <= USER_TOP && Pages(root, v) <= m.pt.view.Keys
    modifies m`want, m.pt, m.pt.pmm, m.pt.pmm.db
    ensures LoosePages(m) && m.Mem() == old(m.Mem()) && m.Room() >= old(m.Room()) && m.Spare() == old(m.Spare())
    ensures SameRoots(old(m.pt.at), m.pt.at)
    ensures NewlyBarred(old(m.Barred()), m.Barred(), BarredBy(flags.user, root))
    ensures m.pt.view == Reflagged(old(m.pt.view), Pages(root, v), flags)
    ensures m.want == Fill(old(m.want), Pages(root, v), flags)
    ensures SameRecords(old(m.pt.pmm.Abs()), old(m.pt.view), m.pt.pmm.Abs())
  {
    hide LoosePages, Pmm.Abs, Contents, FirstPages, Pages, Fill, Reflagged, Reprotected, SameRecords, Machine.Spare,
         Machine.Room, NewlyBarred, BarredOf;
    NoPages(m.want, root, v, flags);
    ReflaggedNone(m.pt.view, root, v, flags);
    NoRecords(m);
    NewlyBarredNone(m.Barred(), BarredBy(flags.user, root));
    ghost var view, want := m.pt.view, m.want;
    var i := 0;
    while i < v.size / 0x1000
      invariant 0 <= i <= v.size / 0x1000
      invariant LoosePages(m) && m.Mem() == old(m.Mem()) && m.Room() >= old(m.Room()) && m.Spare() == old(m.Spare())
      invariant SameRoots(old(m.pt.at), m.pt.at)
      invariant NewlyBarred(old(m.Barred()), m.Barred(), BarredBy(flags.user, root))
      invariant m.pt.view == Reflagged(view, FirstPages(root, v, i), flags)
      invariant m.want == Fill(want, FirstPages(root, v, i), flags)
      invariant SameRecords(old(m.pt.pmm.Abs()), view, m.pt.pmm.Abs())
    {
      PageStep(root, v, i);
      ghost var l, s1, view1 := Loc(root, v.base / 0x1000 + i), m.pt.pmm.Abs(), m.pt.view;
      ReflaggedFrames(view, FirstPages(root, v, i), flags);
      ReflaggedStep(view, FirstPages(root, v, i), l, flags);
      FillStep(want, FirstPages(root, v, i), l, flags);
      ghost var barred1 := m.Barred();
      ReprotectPage(m, root, v.base + i * 0x1000, flags);
      NewlyBarredTwice(old(m.Barred()), barred1, m.Barred(), BarredBy(flags.user, root), BarredBy(flags.user, root));
      RecordsTwice(old(m.pt.pmm.Abs()), view, s1, view1, m.pt.pmm.Abs());
      i := i + 1;
    }
  }

  lemma ReflaggedFrames(view: map<Loc, Leaf>, ls: set<Loc>, flags: PFlags)
    ensures SameFrames(view, Reflagged(view, ls, flags))
  {
  }

  /** The flags vmm_protect gives an area keep it a private area with all its pages, unless it is made shared. */
  lemma MergeBits(was: bv32, now: bv32)
    ensures Has(Merge(was, now), ALLOCATED) == Has(was, ALLOCATED) && Has(Merge(was, now), LAZY) == Has(was, LAZY)
    ensures Has(Merge(was, now), SHARED) == Has(now, SHARED) && ToPFlags(Merge(was, now)) == ToPFlags(now)
    ensures ToPFlags(now).user == Has(now, USER)
  {
  }

  lemma WantReflag(spaces: map<nat, Space>, want: map<Loc, PFlags>, root: nat, i: nat, flags: bv32)
    requires WantOk(spaces, want) && root in spaces && Good(spaces[root].areas) && i < |spaces[root].areas|
    ensures var vs := spaces[root].areas;
      WantOk(spaces[root := spaces[root].(areas := vs[i := vs[i].(flags := flags)])],
             Fill(want, Pages(root, vs[i]), ToPFlags(flags)))
  {
    var vs := spaces[root].areas;
    var ws := vs[i := vs[i].(flags := flags)];
    var spaces', want' := spaces[root := spaces[root].(areas := ws)], Fill(want, Pages(root, vs[i]), ToPFlags(flags));
    assert vs[i].Shaped();
    hide ToPFlags, Has, FlagsAt, Good;
    forall l: Loc ensures PageWanted(spaces', want', l) {
      assert PageWanted(spaces, want, l);
      PagesContain(root, vs[i], l);
      if l.root == root { Reflag(vs, i, flags, l.page * 0x1000); }
    }
  }

  /** Gives area `i` its new flags and maps its pages again. */
  method ProtectArea(m: Machine, root: nat, i: nat, flags: bv32)
    requires Loose(m) && root in m.spaces && i < |m.spaces[root].areas| && !Has(flags, SHARED)
    modifies m`want, m`spaces, m.pt, m.pt.pmm, m.pt.pmm.db
    ensures Loose(m) && m.Mem() == old(m.Mem()) && m.Room() >= old(m.Room()) && m.Spare() == old(m.Spare())
    ensures NewlyBarred(old(m.Barred()), m.Barred(), BarredBy(Has(flags, USER), root))
    ensures var sp := old(m.spaces)[root]; var v := sp.areas[i]; var now := Merge(v.flags, flags);
      && m.spaces == old(m.spaces)[root := sp.(areas := sp.areas[i := v.(flags := now)])]
      && m.pt.view == Reflagged(old(m.pt.view), Pages(root, v), ToPFlags(now))
      && m.want == Fill(old(m.want), Pages(root, v), ToPFlags(now))
    ensures SameRecords(old(m.pt.pmm.Abs()), old(m.pt.view), m.pt.pmm.Abs())
  {
    hide LoosePages, WantOk, Contents, Pages, Fill, Reflagged, SameRecords, ToPFlags, Has, Merge, Good;
    var sp := m.spaces[root];
    var v := sp.areas[i];
    var now := Merge(v.flags, flags);
    MergeBits(v.flags, flags);
    AreaFacts(m, root, i);
    WantReflag(m.spaces, m.want, root, i, now);
    ReflagGood(sp.areas, i, now);
    m.spaces := m.spaces[root := sp.(areas := sp.areas[i := v.(flags := now)])];
    if Has(now, ALLOCATED) {
      ProtectPages(m, root, v, ToPFlags(now));
    }
  }

  lemma AreaFacts(m: Machine, root: nat, i: nat)
    requires Loose(m) && root in m.spaces && i < |m.spaces[root].areas|
    ensures var v := m.spaces[root].areas[i]; v.Shaped() && Backed(v) && Pages(root, v) <= m.pt.view.Keys
    ensures Good(m.spaces[root].areas)
  {
    hide EntryBook, FramesOk, FrameStates.Valid, PageTable.Valid;
    forall l | l in Pages(root, m.spaces[root].areas[i]) ensures l in m.want { WantOfArea(m.spaces, m.want, root, i,
      l); }
  }

  // ---- a range of addresses

  /** The pages of the range with other flags. */
  ghost function ProtectedView(view: map<Loc, Leaf>, root: nat, base: nat, end: nat, flags: PFlags): map<Loc, Leaf> {
    map l | l in view :: if InRange(l, root, base, end) then view[l].(flags := flags) else view[l]
  }

  lemma ProtectedNone(view: map<Loc, Leaf>, root: nat, base: nat, flags: PFlags)
    ensures ProtectedView(view, root, base, base, flags) == view
  {
  }

  lemma ProtectedMore(view: map<Loc, Leaf>, root: nat, base: nat, v: Vma, flags: PFlags)
    requires v.Shaped() && base <= v.base
    ensures ProtectedView(view, root, base, v.End(), flags)
         == Reflagged(ProtectedView(view, root, base, v.base, flags), Pages(root, v), flags)
  {
    forall l | l in view ensures l in Pages(root, v) <==>
      InRange(l, root, v.base, v.End()) { PagesContain(root, v, l); }
  }

  /** Nobody else maps the frames of the range. */
  ghost predicate Alone(view: map<Loc, Leaf>, root: nat, base: nat, end: nat) {
    forall l :: l in view && InRange(l, root, base, end) ==> Mappers(view, view[l].frame) == {l}
  }

  lemma ProtectedMappers(view: map<Loc, Leaf>, root: nat, base: nat, end: nat, flags: PFlags, f: nat)
    ensures Mappers(ProtectedView(view, root, base, end, flags), f) == Mappers(view, f)
  {
    var view' := ProtectedView(view, root, base, end, flags);
    forall l ensures l in Mappers(view', f) <==> l in Mappers(view, f) { }
  }

  /** Isolation survives exactly when the range does not become writable, or none of its frames is shared. */
  lemma IsolationExact(view: map<Loc, Leaf>, root: nat, base: nat, end: nat, flags: PFlags)
    requires Isolated(view)
    ensures Isolated(ProtectedView(view, root, base, end, flags)) <==> (flags.write ==> Alone(view, root, base, end))
  {
    hide Mappers;
    var view' := ProtectedView(view, root, base, end, flags);
    forall l | l in view
      ensures l in view' && view'[l].frame == view[l].frame
        && Mappers(view', view[l].frame) == Mappers(view, view[l].frame)
      ensures view'[l].flags.write == if InRange(l, root, base, end) then flags.write else view[l].flags.write
    {
      ProtectedMappers(view, root, base, end, flags, view[l].frame);
    }
    if Isolated(view') && flags.write {
      forall l | l in view && InRange(l, root, base, end) ensures Mappers(view, view[l].frame) == {l} {
        assert l in view' && view'[l].flags.write;
      }
    }
  }

  /** The marks and counts a caller can read: no frame of the range is marked and shared. */
  ghost predicate Unmarked(m: Machine, root: nat, base: nat, end: nat)
    reads m.pt, m.pt.pmm, m.pt.pmm.db
  {
    forall l :: l in m.Shared() ==> !InRange(l, root, base, end)
  }

  lemma UnmarkedAlone(m: Machine, root: nat, base: nat, end: nat)
    requires Loose(m) && Unmarked(m, root, base, end)
    ensures Alone(m.pt.view, root, base, end)
  {
    hide PagesBook, Mappers, PageTable.Valid, WantOk, SpaceOk;
    forall l | l in m.pt.view && InRange(l, root, base, end) ensures Mappers(m.pt.view, m.pt.view[l].frame) == {l} {
      SharedIs(m.pt.pmm.Abs(), m.pt.view, l);
      UnmarkedIsAlone(m.pt.pmm.Abs(), m.pt.tables.Keys, m.pt.view, m.want, m.data, l);
    }
  }

  lemma IsolateBacked(vs: seq<Vma>, f: nat, addr: nat, end: nat)
    requires f < |vs| && vs[f].Contains(addr) && addr < end && forall i :: 0 <= i < |vs| ==> Backed(vs[i])
    ensures var ws := Isolate(vs, f, addr, end).0; forall i :: 0 <= i < |ws| ==> Backed(ws[i])
  {
    hide Backed;
    if vs[f].base < addr { SplitBacked(vs, f, addr); }
    var (ws, i) := if vs[f].base < addr then (Split(vs, f, addr), f + 1) else (vs, f);
    assert ws[i].base == addr && ws[i].End() == vs[f].End();
    if ws[i].End() > end { SplitBacked(ws, i, end); }
  }

  /** The splits vmm_protect makes around the part of an area that lies in the range. */
  method Carve(m: Machine, root: nat, f: nat, addr: nat, end: nat) returns (i: nat)
    requires Loose(m) && root in m.spaces && f < |m.spaces[root].areas| && m.spaces[root].areas[f].Contains(addr)
    requires addr < end && addr % PAGE == 0 && end % PAGE == 0
    modifies m`spaces
    ensures Loose(m) && var (ws, k) := Isolate(old(m.spaces)[root].areas, f, addr, end);
      i == k && m.spaces == old(m.spaces)[root := old(m.spaces)[root].(areas := ws)]
  {
    hide LoosePages, WantOk, Backed, Good;
    var sp := m.spaces[root];
    IsolateGood(sp.areas, f, addr, end);
    IsolateBacked(sp.areas, f, addr, end);
    WantSame(m.spaces, m.want, root, sp.(areas := Isolate(sp.areas, f, addr, end).0));
    var areas := sp.areas;
    i := f;
    if areas[f].base < addr {
      areas := Split(areas, f, addr);
      i := f + 1;
    }
    if areas[i].End() > end {
      areas := Split(areas, i, end);
    }
    m.spaces := m.spaces[root := sp.(areas := areas)];
  }

  /** How far vmm_protect gets: all before `upto` is mapped, and it stops at the end of the range or at a hole. */
  ghost predicate Reaches(vs: seq<Vma>, base: nat, end: nat, upto: nat, ok: bool) {
    && base <= upto && (forall a :: base <= a < upto ==> Mapped(vs, a))
    && if ok then upto == end else upto < end && !Mapped(vs, upto)
  }

  /** What vmm_protect leaves of a machine, whatever the flags. */
  twostate predicate Preserved(m: Machine)
    reads m, m.pt, m.pt.pmm, m.pt.pmm.db
  {
    && Loose(m) && m.Mem() == old(m.Mem()) && m.Room() >= old(m.Room()) && m.Spare() == old(m.Spare())
    && SameRecords(old(m.pt.pmm.Abs()), old(m.pt.view), m.pt.pmm.Abs())
    && m.Shared() == old(m.Shared())
  }

  lemma GoodLoose(m: Machine, root: nat)
    requires Loose(m) && root in m.spaces
    ensures Good(m.spaces[root].areas)
  {
  }

  lemma ProtectedFrames(view: map<Loc, Leaf>, root: nat, base: nat, end: nat, flags: PFlags)
    ensures SameFrames(view, ProtectedView(view, root, base, end, flags))
  {
  }

  /** The areas after one turn of the loop of vmm_protect. */
  function Turned(vs: seq<Vma>, f: nat, addr: nat, end: nat, flags: bv32): (seq<Vma>, nat)
    requires f < |vs| && vs[f].Contains(addr) && addr < end
  {
    var (ws, i) := Isolate(vs, f, addr, end);
    (ws[i := ws[i].(flags := Merge(ws[i].flags, flags))], ws[i].End())
  }

  lemma TurnedMapped(vs: seq<Vma>, f: nat, addr: nat, end: nat, flags: bv32)
    requires Good(vs) && f < |vs| && vs[f].Contains(addr) && addr < end && addr % PAGE == 0 && end % PAGE == 0
    ensures var (xs, next) := Turned(vs, f, addr, end, flags);
      && addr < next <= end && next % PAGE == 0
      && (forall a :: Mapped(xs, a) <==> Mapped(vs, a)) && (forall a :: addr <= a < next ==> Mapped(vs, a))
  {
    ProtectKeeps(vs, f, addr, end, flags);
    var (xs, next) := Turned(vs, f, addr, end, flags);
    forall a ensures Mapped(xs, a) <==> Mapped(vs, a) { ProtectStep(vs, f, addr, end, flags, a); }
    forall a | addr <= a < next ensures Mapped(vs, a) { ProtectStep(vs, f, addr, end, flags, a); }
  }

  lemma TurnedProtects(vs: seq<Vma>, addr: nat, end: nat, flags: bv32)
    requires addr < end
    ensures var f := Find(vs, addr);
      if f < 0 then Vmas.Protect(vs, addr, end, flags) == Hole(vs)
      else var (xs, next) := Turned(vs, f, addr, end, flags);
        Vmas.Protect(vs, addr, end, flags) == Vmas.Protect(xs, next, end, flags)
  {
    ProtectUnfolds(vs, addr, end, flags);
  }

  /** One turn of the loop of vmm_protect, which has been at work since the machine was in state `s` with `view`. */
  method ProtectTurn(m: Machine, root: nat, f: nat, addr: nat, end: nat, flags: bv32,
                     ghost base: nat, ghost s: State, ghost view: map<Loc, Leaf>) returns (next: nat)
    requires Loose(m) && root in m.spaces && f < |m.spaces[root].areas| && m.spaces[root].areas[f].Contains(addr)
    requires base <= addr < end && addr % PAGE == 0 && end % PAGE == 0 && !Has(flags, SHARED)
    requires SameRecords(s, view, m.pt.pmm.Abs())
    requires m.pt.view == ProtectedView(view, root, base, addr, ToPFlags(flags))
    modifies m`want, m`spaces, m.pt, m.pt.pmm, m.pt.pmm.db
    ensures Loose(m) && m.Mem() == old(m.Mem()) && m.Room() >= old(m.Room()) && m.Spare() == old(m.Spare())
    ensures SameRecords(s, view, m.pt.pmm.Abs())
    ensures NewlyBarred(old(m.Barred()), m.Barred(), BarredBy(Has(flags, USER), root))
    ensures var (xs, to) := Turned(old(m.spaces)[root].areas, f, addr, end, flags);
      next == to && m.spaces == old(m.spaces)[root := old(m.spaces)[root].(areas := xs)]
    ensures m.pt.view == ProtectedView(view, root, base, next, ToPFlags(flags))
  {
    hide LoosePages, WantOk, SpaceOk, Contents, Isolate, ProtectedView, Has, SameRecords, Good, Merge, ToPFlags, Fill,
         Pages, Reflagged, Pmm.Abs;
    var i := Carve(m, root, f, addr, end);
    var v := m.spaces[root].areas[i];
    ghost var s1, view1 := m.pt.pmm.Abs(), m.pt.view;
    AreaFacts(m, root, i);
    ProtectArea(m, root, i, flags);
    MergeBits(v.flags, flags);
    ProtectedMore(view, root, base, v, ToPFlags(flags));
    ProtectedFrames(view, root, base, addr, ToPFlags(flags));
    RecordsTwice(s, view, s1, view1, m.pt.pmm.Abs());
    next := v.End();
  }

  /** The loop of vmm_protect. */
  method ProtectRange(m: Machine, root: nat, base: nat, end: nat, flags: bv32) returns (ok: bool, ghost upto: nat)
    requires Loose(m) && root in m.spaces && !Has(flags, SHARED) && base < end && base % PAGE == 0 && end % PAGE == 0
    modifies m`want, m`spaces, m.pt, m.pt.pmm, m.pt.pmm.db
    ensures Preserved(m) && Reaches(old(m.spaces)[root].areas, base, end, upto, ok)
    ensures NewlyBarred(old(m.Barred()), m.Barred(), BarredBy(Has(flags, USER), root))
    ensures var out := Vmas.Protect(old(m.spaces)[root].areas, base, end, flags);
      (ok <==> out.Done?) && m.spaces == old(m.spaces)[root := old(m.spaces)[root].(areas := out.areas)]
    ensures m.pt.view == ProtectedView(old(m.pt.view), root, base, upto, ToPFlags(flags))
  {
    hide LoosePages, WantOk, SpaceOk, Contents, Vmas.Protect, Turned, ProtectedView, Has, Find, SameRecords, Good,
         Mapped, Pmm.Abs, SharedPages;
    ghost var view, sp, s := m.pt.view, m.spaces[root], m.pt.pmm.Abs();
    ghost var out := Vmas.Protect(sp.areas, base, end, flags);
    ProtectedNone(view, root, base, ToPFlags(flags));
    NoRecords(m);
    var addr := base;
    while addr < end
      invariant Loose(m) && m.Mem() == old(m.Mem()) && m.Room() >= old(m.Room()) && m.Spare() == old(m.Spare())
      invariant SameRecords(s, view, m.pt.pmm.Abs())
      invariant NewlyBarred(old(m.Barred()), m.Barred(), BarredBy(Has(flags, USER), root))
      invariant base <= addr <= end && addr % PAGE == 0 && root in m.spaces
      invariant m.spaces == old(m.spaces)[root := sp.(areas := m.spaces[root].areas)]
      invariant Vmas.Protect(m.spaces[root].areas, addr, end, flags) == out
      invariant forall a :: Mapped(m.spaces[root].areas, a) <==> Mapped(sp.areas, a)
      invariant forall a :: base <= a < addr ==> Mapped(sp.areas, a)
      invariant m.pt.view == ProtectedView(view, root, base, addr, ToPFlags(flags))
      decreases end - addr
    {
      ghost var vs := m.spaces[root].areas;
      GoodLoose(m, root);
      FindExact(vs, addr);
      TurnedProtects(vs, addr, end, flags);
      var f := Find(m.spaces[root].areas, addr);
      if f < 0 {
        ProtectedFrames(view, root, base, addr, ToPFlags(flags));
        SharedAcross(s, view, m.pt.pmm.Abs(), m.pt.view);
        return false, addr;
      }
      TurnedMapped(vs, f, addr, end, flags);
      ghost var barred1 := m.Barred();
      addr := ProtectTurn(m, root, f, addr, end, flags, base, s, view);
      NewlyBarredTwice(old(m.Barred()), barred1, m.Barred(), BarredBy(Has(flags, USER), root),
                       BarredBy(Has(flags, USER), root));
    }
    ProtectEnds(m.spaces[root].areas, addr, end, flags);
    ProtectedFrames(view, root, base, addr, ToPFlags(flags));
    SharedAcross(s, view, m.pt.pmm.Abs(), m.pt.view);
    return true, addr;
  }

  /** vmm_protect on a private address space. Nobody's contents, no frame's record and no free memory is lost. The pages
      it gets to have the access their areas now allow, and all the others are as before. Address spaces stay private
      exactly when the range does not become writable, or no frame of it is mapped anywhere else; which is so when none
      is both marked copy-on-write and counted as shared. */
  method Protect(m: Machine, root: nat, addr: nat, size: nat, flags: bv32) returns (ok: bool, ghost upto: nat)
    requires Loose(m) && root in m.spaces && !Has(flags, SHARED)
    modifies m`want, m`spaces, m.pt, m.pt.pmm, m.pt.pmm.db
    ensures Preserved(m) && NewlyBarred(old(m.Barred()), m.Barred(), BarredBy(Has(flags, USER), root))
    ensures size == 0 ==>
      !ok && m.spaces == old(m.spaces) && m.pt.view == old(m.pt.view) && (old(m.Valid()) ==> m.Valid())
    ensures size > 0 ==>
      var base, end := AlignDown(addr), AlignDown(addr) + AlignUp(size);
      var out := Vmas.Protect(old(m.spaces)[root].areas, base, end, flags);
      && (ok <==> out.Done?) && Reaches(old(m.spaces)[root].areas, base, end, upto, ok)
      && m.spaces == old(m.spaces)[root := old(m.spaces)[root].(areas := out.areas)]
      && m.pt.view == ProtectedView(old(m.pt.view), root, base, upto, ToPFlags(flags))
      && (old(m.Valid()) ==> (m.Valid() <==> (Has(flags, WRITABLE) ==> Alone(old(m.pt.view), root, base, upto))))
      && (old(m.Valid()) && (Has(flags, WRITABLE) ==> old(Unmarked(m, root, base, end))) ==> m.Valid())
  {
    hide LoosePages, WantOk, SpaceOk, Contents, Vmas.Protect, AlignDown, AlignUp, ProtectedView, Has, Machine.Valid,
         SameRecords, Isolated, Alone, Unmarked, Pmm.Abs;
    ValidExact(m);
    NoRecords(m);
    if size == 0 {
      return false, 0;
    }
    var base := AlignDown(addr);
    var end := base + AlignUp(size);
    ghost var view := m.pt.view;
    if Unmarked(m, root, base, end) { UnmarkedAlone(m, root, base, end); }
    ok, upto := ProtectRange(m, root, base, end, flags);
    ValidExact(m);
    AloneLess(view, root, base, upto, end);
    if Isolated(view) { IsolationExact(view, root, base, upto, ToPFlags(flags)); }
  }

  lemma AloneLess(view: map<Loc, Leaf>, root: nat, base: nat, upto: nat, end: nat)
    requires upto <= end
    ensures Alone(view, root, base, end) ==> Alone(view, root, base, upto)
  {
  }

  // ---- a store that reaches another address space

  /** A byte stored in a frame, as seen through every page that maps it. */
  ghost function Poked(mem: Memory, view: map<Loc, Leaf>, frame: nat, offset: nat, b: bv8): Memory
    requires forall l :: l in mem ==> l in view && |mem[l]| == 4096
    requires offset < 4096
  {
    map l | l in mem :: if view[l].frame == frame then mem[l][offset := b] else mem[l]
  }

  lemma MemFacts(m: Machine)
    requires LoosePages(m)
    ensures m.Mem().Keys == m.pt.view.Keys
    ensures forall l :: l in m.Mem() ==> |m.Mem()[l]| == 4096
  {
    forall l | l in m.pt.view ensures l in m.Mem() && |m.Mem()[l]| == 4096 {
      assert EntryBook(m.pt.pmm.Abs(), m.pt.view, m.want, m.data, l);
    }
  }

  lemma PokeBook(s: State, tables: set<nat>, view: map<Loc, Leaf>, want: map<Loc, PFlags>, data: map<nat, Bytes>,
                 f: nat, bytes: Bytes)
    requires PagesBook(s, tables, view, want, data) && |bytes| == 4096
    ensures PagesBook(s, tables, view, want, data[f := bytes])
  {
    forall l | l in view ensures EntryBook(s, view, want, data[f := bytes],
      l) { assert EntryBook(s, view, want, data, l); }
  }

  /** A store by user code that does not fault: it goes to the frame, whoever else maps it. */
  method StoreThrough(m: Machine, root: nat, vaddr: nat, b: bv8) returns (done: bool)
    requires LoosePages(m) && m.pt.IsRoot(root) && UserAddress(vaddr)
    modifies m`data
    ensures LoosePages(m) && (done <==> m.Writable(root, vaddr))
    ensures old(m.Mem()).Keys == m.pt.view.Keys && forall l :: l in old(m.Mem()) ==> |old(m.Mem())[l]| == 4096
    ensures !done ==> m.Mem() == old(m.Mem())
    ensures done ==> m.Mem() == Poked(old(m.Mem()), m.pt.view, m.pt.view[m.pt.Here(root, vaddr)].frame, vaddr % 4096, b)
  {
    hide FrameStates.Valid, Pmm.Sound, Tree, Denotes, Leads, FramesOk, EntryBook, Access;
    MemFacts(m);
    var e := m.pt.Translate(root, vaddr);
    done := e.Present? && e.flags.write && e.flags.user;
    if done {
      ghost var data := m.data;
      var f, o := e.frame, vaddr % 4096;
      assert m.pt.Here(root, vaddr) in m.Mem();
      PokeBook(m.pt.pmm.Abs(), m.pt.tables.Keys, m.pt.view, m.want, data, f, data[f][o := b]);
      m.Poke(f, o, b);
    }
  }

  lemma FirstGap(size: nat)
    requires 0 < size <= 0x1000
    ensures Gap([], MMAP_BASE, AlignUp(size)) == MMAP_BASE - 0x1000
  {
    assert AlignUp(size) == 0x1000;
  }

  /** The page of a single area: mapped where the area is, and counted once. */
  lemma OnePage(root: nat, v: Vma)
    requires v.base == MMAP_BASE - 0x1000 && v.size == 0x1000
    ensures Insert([], v) == [v] && PageCount([v]) == 1 && Pages(root, v) == {Loc(root, v.base / 0x1000)}
  {
    assert Insert([], v) == [v];
    assert [v][..0] == [];
    assert PageCount([v]) == PageCount([]) + 1;
  }

  /** What user code may read and write. */
  const OPEN: bv32 := WRITABLE | USER

  lemma OpenAllocated()
    ensures Has(OPEN | ALLOCATED, USER)
  {
  }

  lemma OpenBits()
    ensures !Has(OPEN, LAZY) && !Has(OPEN, SHARED) && !Has(OPEN, FIXED) && Has(OPEN, WRITABLE) && Has(OPEN, USER)
    ensures ToPFlags(OPEN).write && ToPFlags(OPEN).user
  {
  }

  lemma OpenPath(barred: set<Pos>, root: nat, vaddr: nat)
    requires forall q :: q in barred ==> q.root != root
    ensures PathOpen(barred, root, vaddr)
  {
  }

  lemma OpenStays(barred: set<Pos>, barred': set<Pos>, root: nat, vaddr: nat)
    requires PathOpen(barred, root, vaddr) && NewlyBarred(barred, barred', {})
    ensures PathOpen(barred', root, vaddr)
  {
  }

  lemma NoneBarred(via: map<Pos, PFlags>, root: nat)
    requires forall q :: q in via ==> q.root != root
    ensures forall q :: q in BarredOf(via) ==> q.root != root
  {
  }

  /** A new address space with one page. */
  method MapOne(m: Machine) returns (root: nat, base: nat)
    requires m.Valid() && m.Room() >= 5
    modifies m, m.pt, m.pt.pmm, m.pt.pmm.db
    ensures m.Valid() && root in m.spaces && base == MMAP_BASE - 0x1000 && m.Room() >= old(m.Room()) - 5
    ensures m.spaces[root].areas == [Vma(base, 0x1000, OPEN | ALLOCATED)]
    ensures Loc(root, base / 0x1000) in m.Mem() && m.Mem()[Loc(root, base / 0x1000)] == Zeroes()
    ensures PathOpen(m.Barred(), root, base)
  {
    hide Machine.Valid, Machine.Mem, Machine.Room, Has, Gap, Insert, PageCount, Pages, AlignUp, Machine.Spare,
         ViaGrown, BarredOf, PathOpen, SharedPages;
    OpenBits();
    FirstGap(0x1000);
    var r := m.Create();
    root := r.pfn;
    NoneBarred(m.pt.via, root);
    ghost var via := m.pt.via;
    base := m.MapAnonymous(root, 0x1000, OPEN);
    GrownBarred(via, m.pt.via, root, true);
    OpenPath(m.Barred(), root, base);
    OnePage(root, Vma(base, 0x1000, OPEN | ALLOCATED));
  }

  /** Makes the one page of an address space writable again. Unless its frame is mapped nowhere else, the spaces are no
      longer private. */
  method Reopen(m: Machine, root: nat, base: nat)
    requires m.Valid() && root in m.spaces && base % PAGE == 0
    requires |m.spaces[root].areas| == 1 && m.spaces[root].areas[0].base == base
      && m.spaces[root].areas[0].size == 0x1000
    requires Loc(root, base / 0x1000) in m.pt.view && PathOpen(m.Barred(), root, base)
    modifies m`want, m`spaces, m.pt, m.pt.pmm, m.pt.pmm.db
    ensures Loose(m) && m.Mem() == old(m.Mem()) && m.spaces.Keys == old(m.spaces).Keys
    ensures SameFrames(old(m.pt.view), m.pt.view)
    ensures var leaf := m.pt.view[Loc(root, base / 0x1000)]; leaf.flags.write && leaf.flags.user
    ensures PathOpen(m.Barred(), root, base)
    ensures m.Valid() <==>
      Mappers(old(m.pt.view), old(m.pt.view)[Loc(root, base / 0x1000)].frame) == {Loc(root, base / 0x1000)}
  {
    hide LoosePages, WantOk, SpaceOk, Contents, Vmas.Protect, Machine.Valid, Has, ToPFlags, SameRecords, Unmarked,
         Mappers;
    OpenBits();
    ValidExact(m);
    ghost var view, l := m.pt.view, Loc(root, base / 0x1000);
    assert AlignDown(base) == base && AlignUp(0x1000) == 0x1000;
    assert forall a :: base <= a < base + 0x1000 ==> m.spaces[root].areas[0].Contains(a);
    ghost var barred := m.Barred();
    var ok, upto := Protect(m, root, base, 0x1000, OPEN);
    OpenStays(barred, m.Barred(), root, base);
    assert upto == base + 0x1000;
    assert InRange(l, root, base, upto);
    ProtectedFrames(view, root, base, upto, ToPFlags(OPEN));
    assert forall k :: k in view && InRange(k, root, base, upto) ==> k == l;
  }

  /** A forked address space with one page, which the two then share. */
  method ForkOne(m: Machine) returns (parent: nat, child: nat, base: nat)
    requires m.Valid() && m.Room() >= 9
    modifies m, m.pt, m.pt.pmm, m.pt.pmm.db
    ensures m.Valid() && parent != child && {parent, child} <= m.spaces.Keys && base == MMAP_BASE - 0x1000
    ensures m.spaces[parent].areas == [Vma(base, 0x1000, OPEN | ALLOCATED)]
    ensures var l, c := Loc(parent, base / 0x1000), Loc(child, base / 0x1000);
      && l in m.Mem() && c in m.Mem() && m.Mem()[l] == m.Mem()[c] == Zeroes()
      && l in m.pt.view && c in m.pt.view && m.pt.view[l].frame == m.pt.view[c].frame
    ensures PathOpen(m.Barred(), parent, base)
  {
    hide LoosePages, WantOk, SpaceOk, Machine.Valid, Machine.Mem, Machine.Room, Machine.Shared, PageCount, Isolated,
         ForkMem, Twins, NewlyShared;
    parent, base := MapOne(m);
    OnePage(parent, m.spaces[parent].areas[0]);
    ghost var before, barred := m.Mem(), m.Barred();
    OpenBits();
    OpenAllocated();
    child := m.Fork(parent);
    OpenStays(barred, m.Barred(), parent, base);
    ForkMemAt(before, parent, child, base / 0x1000);
    ValidExact(m);
    MemFacts(m);
    TwinsAt(m.pt.view, parent, child, base / 0x1000);
  }

  lemma TwinsAt(view: map<Loc, Leaf>, parent: nat, child: nat, page: nat)
    requires Twins(view, parent, child) && Loc(child, page) in view
    ensures Loc(parent, page) in view && view[Loc(parent, page)].frame == view[Loc(child, page)].frame
  {
  }

  /** Mapped, forked, made writable again and stored to: the other address space sees the store. */
  method Leak(m: Machine, b: bv8) returns (parent: nat, child: nat, page: nat, ghost before: Memory)
    requires m.Valid() && m.Room() >= 9
    modifies m, m.pt, m.pt.pmm, m.pt.pmm.db
    ensures parent != child && {parent, child} <= m.spaces.Keys && !m.Valid()
    ensures Loc(parent, page) in before && before[Loc(parent, page)] == Zeroes()
    ensures Loc(child, page) in before && before[Loc(child, page)] == Zeroes()
    ensures Loc(child, page) in m.Mem() && m.Mem()[Loc(child, page)] == Zeroes()[0 := b]
  {
    hide LoosePages, WantOk, SpaceOk, Machine.Valid, Machine.Mem, Machine.Room, Mappers, Isolated;
    var base;
    parent, child, base := ForkOne(m);
    page := base / 0x1000;
    before := m.Mem();
    ghost var view, l, c := m.pt.view, Loc(parent, page), Loc(child, page);
    InMappers(view, c, view[l].frame);
    Reopen(m, parent, base);
    RootOf(m, parent);
    ValidExact(m);
    WritableOpen(m, parent, base);
    var done := StoreThrough(m, parent, base, b);
    ValidExact(m);
  }

  /** User code can write through a writable leaf that is for it when it gets past the tables. */
  lemma WritableOpen(m: Machine, root: nat, vaddr: nat)
    requires LoosePages(m) && UserAddress(vaddr) && m.pt.Here(root, vaddr) in m.pt.view
    requires var leaf := m.pt.view[m.pt.Here(root, vaddr)]; leaf.flags.write && leaf.flags.user
    requires PathOpen(m.Barred(), root, vaddr)
    ensures m.Writable(root, vaddr)
  {
    hide FrameStates.Valid, Pmm.Sound, Tree, Denotes, Leads, FramesOk, EntryBook, Access, BarredOf, PathOpen, Covering;
    var l := m.pt.Here(root, vaddr);
    m.pt.MappedFrame(l);
    m.pt.LeafPosition(root, vaddr);
    m.pt.OnTheWay(root, vaddr);
    AccessExact(m.pt.tables, m.pt.at, m.pt.via, root, vaddr, m.pt.view[l].flags);
  }

  // ---- a store that its area allows and its tables do not

  /** The second page is mapped below the first. */
  lemma SecondGap(v: Vma, w: Vma)
    requires v.base == MMAP_BASE - 0x1000 && v.size == 0x1000 && w.base == MMAP_BASE - 0x2000 && w.size == 0x1000
    ensures Gap([v], v.base, AlignUp(0x1000)) == w.base && Insert([v], w) == [w, v] && Find([w, v], w.base) == 0
  {
    assert AlignUp(0x1000) == 0x1000 && AlignDown(v.base - 0x1000) == w.base;
  }

  lemma ClosedBits()
    ensures !Has(WRITABLE, LAZY) && !Has(WRITABLE, SHARED) && !Has(WRITABLE, FIXED) && !Has(WRITABLE, USER)
    ensures Has(OPEN | ALLOCATED, WRITABLE) && Has(OPEN | ALLOCATED, USER)
  {
  }

  /** The table that a page which is not for user code was the first to need is closed to user code ... */
  lemma Shut(via: map<Pos, PFlags>, via': map<Pos, PFlags>, root: nat, q: Pos)
    requires ViaGrown(via, via', root, PFlags(true, false, false, false)) && q in via' && q !in via
    ensures q in BarredOf(via')
  {
  }

  /** ... and stays so, whatever is mapped there later. */
  lemma StaysShut(via: map<Pos, PFlags>, via': map<Pos, PFlags>, root: nat, q: Pos)
    requires ViaGrown(via, via', root, PFlags(true, true, false, false)) && q in BarredOf(via)
    ensures q in BarredOf(via')
  {
  }

  lemma SameTable(root: nat, base: nat)
    requires base == MMAP_BASE - 0x1000
    ensures Covering(root, base - 0x1000, 1) == Covering(root, base, 1)
    ensures UserAddress(base) && UserAddress(base - 0x1000)
  {
  }

  lemma FirstShut(m: Machine, via: map<Pos, PFlags>, root: nat, base: nat)
    requires m.Valid() && base == MMAP_BASE - 0x1000 && Loc(root, base / 0x1000) in m.Mem()
    requires (forall q :: q in via ==> q.root != root)
      && ViaGrown(via, m.pt.via, root, PFlags(true, false, false, false))
    ensures Covering(root, base, 1) in m.Barred()
  {
    hide Machine.PagesValid, WantOk, SpaceOk, ViaGrown, BarredOf, UserAddress;
    SameTable(root, base);
    m.PathThere(root, base);
    Shut(via, m.pt.via, root, Covering(root, base, 1));
  }

  /** A new address space with one page that is not for user code. */
  method MapClosed(m: Machine) returns (root: nat, base: nat)
    requires m.Valid() && m.Room() >= 5
    modifies m, m.pt, m.pt.pmm, m.pt.pmm.db
    ensures m.Valid() && root in m.spaces && base == MMAP_BASE - 0x1000 && m.Room() >= old(m.Room()) - 5
    ensures m.spaces[root] == Space([Vma(base, 0x1000, WRITABLE | ALLOCATED)], base)
    ensures Covering(root, base, 1) in m.Barred()
  {
    hide Machine.Valid, Machine.Mem, Machine.Room, Has, Gap, Insert, PageCount, Pages, AlignUp, ViaGrown, BarredOf,
         Covering, SharedPages, UserAddress, Machine.Spare;
    ClosedBits();
    FirstGap(0x1000);
    var created := m.Create();
    root := created.pfn;
    ghost var via := m.pt.via;
    base := m.MapAnonymous(root, 0x1000, WRITABLE);
    ghost var v := Vma(base, 0x1000, WRITABLE | ALLOCATED);
    OnePage(root, v);
    FirstShut(m, via, root, base);
  }

  /** In a new address space a page that is not for user code, and below it one that is: the area of the second allows
      the store, there is memory, and yet it faults. */
  method ShutOut(m: Machine, b: bv8) returns (root: nat, vaddr: nat, r: Errno)
    requires m.Valid() && m.Room() >= 10
    modifies m, m.pt, m.pt.pmm, m.pt.pmm.db
    ensures m.Valid() && root in m.spaces && MayStore(m.spaces[root].areas, vaddr) && r.EFault?
  {
    hide Machine.Valid, Machine.Mem, Has, Gap, Insert, Find, Pages, AlignUp, ViaGrown, BarredOf, Covering, SharedPages,
         UserAddress, Machine.CowMarked, Machine.Writable;
    var base;
    root, base := MapClosed(m);
    ghost var via := m.pt.via;
    ClosedBits();
    OpenBits();
    vaddr := m.MapAnonymous(root, 0x1000, OPEN);
    SecondGap(Vma(base, 0x1000, WRITABLE | ALLOCATED), Vma(base - 0x1000, 0x1000, OPEN | ALLOCATED));
    SameTable(root, base);
    StaysShut(via, m.pt.via, root, Covering(root, base, 1));
    assert AlignDown(vaddr) == vaddr;
    r := m.Store(root, vaddr, b);
  }

  lemma InMappers(view: map<Loc, Leaf>, l: Loc, f: nat)
    ensures l in Mappers(view, f) <==> l in view && view[l].frame == f
  {
  }

  lemma RootOf(m: Machine, root: nat)
    requires Loose(m) && root in m.spaces
    ensures LoosePages(m) && m.pt.IsRoot(root)
  {
  }
}
