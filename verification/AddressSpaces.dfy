/** Address spaces over shared frames: mapping, forking, writing and unmapping, from kernel/src/mm/vmm.c.
    Seen from outside, every address space is a private memory. */
module AddressSpaces {
  import opened FrameStates
  import opened FrameAllocator
  import opened PageTables
  import opened Paging
  import opened CowPages
  import opened Vmas
  import opened AreaPages

  datatype Errno = Ok | EFault | ENoMem

  class Machine {
    const pt: PageTable
    /** The contents of the frames that back user pages. */
    var data: map<nat, Bytes>
    /** The flags the area of a page asks for. */
    ghost var want: map<Loc, PFlags>
    /** The address spaces by their top table. */
    var spaces: map<nat, Space>

    ghost predicate PagesValid()
      reads this`data, this`want, pt, pt.pmm, pt.pmm.db
    {
      pt.Valid() && PagesOk(pt.pmm.Abs(), pt.tables.Keys, pt.view, want, data)
    }

    ghost function Mem(): Memory
      reads this`data, pt`view
    {
      Contents(pt.view, data)
    }

    ghost function Room(): nat
      reads pt, pt.pmm, pt.pmm.db
    {
      |pt.pmm.Abs().free|
    }

    /** The pages whose frame is marked copy-on-write and counted as shared. */
    ghost function Shared(): set<Loc>
      reads pt, pt.pmm, pt.pmm.db
    {
      SharedPages(pt.pmm.Abs(), pt.view)
    }

    /** The tables that user code cannot get past. */
    ghost function Barred(): set<Pos>
      reads pt`via
    {
      pt.Barred()
    }

    /** The frames that are free or hold tables. */
    ghost function Spare(): nat
      reads pt, pt.pmm, pt.pmm.db
    {
      pt.Spare()
    }

    constructor (pt: PageTable)
      requires pt.Valid() && pt.view == map[] && pt.tables == map[]
      ensures Valid() && this.pt == pt && Mem() == map[] && spaces == map[]
    {
      this.pt := pt;
      data, want, spaces := map[], map[], map[];
    }

    ghost predicate Valid()
      reads this, pt, pt.pmm, pt.pmm.db
    {
      && PagesValid()
      && WantOk(spaces, want)
      && (forall r :: r in spaces ==> SpaceOk(spaces[r]))
      && (forall r :: pt.IsRoot(r) <==> r in spaces)
    }

    /** One turn of _vma_allocate_pages: a zeroed frame for one page. */
    method AddZeroPage(root: nat, vaddr: nat, flags: PFlags)
      requires PagesValid() && pt.IsRoot(root) && UserAddress(vaddr)
      requires pt.Here(root, vaddr) !in pt.view && Room() >= 4
      modifies this`data, this`want, pt, pt.pmm, pt.pmm.db
      ensures PagesValid() && Room() >= old(Room()) - 4 && Spare() == old(Spare()) - 1
      ensures SameRoots(old(pt.at), pt.at)
      ensures ViaGrown(old(pt.via), pt.via, root, PFlags(true, flags.user, false, false))
      ensures Mem() == old(Mem())[pt.Here(root, vaddr) := Zeroes()]
      ensures want == old(want)[pt.Here(root, vaddr) := flags] && Shared() <= old(Shared())
    {
      hide FrameStates.Valid, Pmm.Sound, Tree, Denotes, Leads, FramesOk, AllocN, Alloc, Add, Drop, OfOthers, SameExcess,
           EntryOk, Contents, NoVacantBut, UserAddress, SharedPages, Pmm.Abs, Access, PathOpen, BarredOf, Missing;
      ghost var s, tables, view, l := pt.pmm.Abs(), pt.tables.Keys, pt.view, pt.Here(root, vaddr);
      var page := pt.pmm.AllocPage();
      FreeHead(s);
      AllocUserFrame(s, tables, view, l);
      data := data[page.pfn := Zeroes()];
      assert Spare() == old(Spare()) - 1;
      hide PageTable.Spare, ViaGrown, SameRoots, Mappable;
      ghost var n := pt.MapNew(root, vaddr, page.pfn, flags);
      want := want[l := flags];
      NewPage(s, tables, view, old(want), old(data), l, flags, n, pt.tables.Keys);
      NewPageShared(s, tables, view, l, flags, n);
    }

    /** Mark the frame of a page copy-on-write and take a pair of counts for another mapping. */
    method MarkShared(parent: nat, vaddr: nat, ghost c: Loc) returns (frame: nat)
      requires pt.Valid() && pt.IsRoot(parent) && UserAddress(vaddr)
      requires pt.Here(parent, vaddr) in pt.view && c !in pt.view
      modifies pt`tables, pt`at, pt`pos, pt`via, pt.pmm, pt.pmm.db
      ensures pt.Valid() && unchanged(pt)
      ensures frame == pt.view[pt.Here(parent, vaddr)].frame < |old(pt.pmm.Abs()).frames|
      ensures pt.pmm.Abs() == ForkMarked(old(pt.pmm.Abs()), frame)
      ensures pt.pmm.Abs().free == old(pt.pmm.Abs()).free
      ensures Mappable(pt.pmm.Abs(), pt.tables.Keys, pt.view, c, frame)
    {
      hide FrameStates.Valid, Pmm.Sound, Tree, Denotes, Leads, FramesOk, Add, UserAddress, Mappable;
      ForkFrames(pt.pmm.Abs(), pt.tables.Keys, pt.view, pt.Here(parent, vaddr), c);
      frame := pt.GetPaddr(parent, vaddr);
      pt.pmm.SetCow(frame, true);
      pt.pmm.AddMapping(frame);
    }

    /** One turn of the page loop of vmm_fork for a private area. */
    method ForkPage(parent: nat, child: nat, vaddr: nat, flags: PFlags)
      requires PagesValid() && pt.IsRoot(parent) && pt.IsRoot(child) && UserAddress(vaddr)
      requires pt.Here(parent, vaddr) in pt.view && pt.Here(child, vaddr) !in pt.view && Room() >= 3
      requires want[pt.Here(parent, vaddr)] == flags
      modifies this`want, pt, pt.pmm, pt.pmm.db
      ensures PagesValid() && Room() >= old(Room()) - 3 && Spare() == old(Spare())
      ensures SameRoots(old(pt.at), pt.at)
      ensures ViaGrown(old(pt.via), pt.via, child, PFlags(true, flags.user, false, false))
      ensures pt.Here(parent, vaddr) in old(Mem())
      ensures Mem() == old(Mem())[pt.Here(child, vaddr) := old(Mem())[pt.Here(parent, vaddr)]]
      ensures want == old(want)[pt.Here(child, vaddr) := flags]
      ensures pt.view == ForkView(old(pt.view), pt.Here(parent, vaddr), pt.Here(child, vaddr), flags)
      ensures Shared() <= old(Shared()) + {pt.Here(parent, vaddr), pt.Here(child, vaddr)}
    {
      hide FrameStates.Valid, Pmm.Sound, Pmm.Abs, Tree, Denotes, Leads, FramesOk, AllocN, Add, Drop, OfOthers,
           SameExcess, EntryOk, Contents, NoVacantBut, UserAddress, ForkMarked, Mappable, SharedPages, ViaGrown, Access,
           PathOpen, BarredOf, Missing;
      ghost var s, tables, view := pt.pmm.Abs(), pt.tables.Keys, pt.view;
      ghost var l, c := pt.Here(parent, vaddr), pt.Here(child, vaddr);
      var frame := MarkShared(parent, vaddr, c);
      assert Spare() == old(Spare());
      hide PageTable.Spare, LastRef;
      var ro := flags.(write := false);
      ghost var n := pt.MapNew(child, vaddr, frame, ro);
      MappedTwiceIsMappable(pt.pmm.Abs(), pt.tables.Keys, pt.view, l, c);
      NotLast(pt.pmm.Abs(), pt.tables.Keys, pt.view, l, frame);
      pt.MapOver(parent, vaddr, frame, ro);
      want := want[c := flags];
      CowPages.ForkPage(s, tables, view, old(want), data, l, c, n, pt.tables.Keys);
      ForkPageShared(s, tables, view, old(want), data, l, c, n, flags);
    }

    /** The copying end of vmm_pf_handler. Nobody's contents change, and the page gets the access its area allows. */
    method CopyPage(root: nat, vaddr: nat, frame: nat, flags: PFlags) returns (ok: bool)
      requires PagesValid() && pt.IsRoot(root) && UserAddress(vaddr)
      requires pt.Here(root, vaddr) in pt.view && pt.view[pt.Here(root, vaddr)].frame == frame
      requires want[pt.Here(root, vaddr)] == flags
      modifies this`data, pt, pt.pmm, pt.pmm.db
      ensures PagesValid() && Mem() == old(Mem())
      ensures SameRoots(old(pt.at), pt.at) && pt.via == old(pt.via)
      ensures (ok <==> old(Room()) > 0) && Room() >= old(Room()) - 1 && Shared() <= old(Shared())
      ensures Spare() == old(Spare()) - if ok && old(SharedFrame(root, vaddr)) then 1 else 0
      ensures ok ==> pt.Here(root, vaddr) in pt.view && pt.view[pt.Here(root, vaddr)].flags == flags
      ensures ok ==> !CowMarked(root, vaddr)
      ensures !ok ==> unchanged(this) && unchanged(pt) && Room() == old(Room())
    {
      hide FrameStates.Valid, Pmm.Sound, Tree, Denotes, Leads, FramesOk, AllocN, Alloc, Add, Drop, OfOthers, SameExcess,
           EntryOk, Contents, NoVacantBut, UserAddress, SharedPages, LastRef, ViaGrown, Access, PathOpen, BarredOf,
           Missing;
      ghost var s, tables, view, l := pt.pmm.Abs(), pt.tables.Keys, pt.view, pt.Here(root, vaddr);
      BackedPage(l);
      var page := pt.pmm.AllocPage();
      if page.Null? {
        return false;
      }
      CopyFrames(s, tables, view, want, data, l);
      data := data[page.pfn := data[frame]];
      pt.pmm.DropMapping(frame);
      pt.MapOver(root, vaddr, page.pfn, flags);
      CowPages.CopyPage(s, tables, view, want, old(data), l);
      CopyPageShared(s, tables, view, want, old(data), l, flags);
      CopyIsPlain(s, tables, view, want, old(data), l);
      ok := true;
    }

    lemma BackedPage(l: Loc)
      requires PagesValid() && l in pt.view
      ensures l in want && pt.view[l].frame in data && |data[pt.view[l].frame]| == 4096
      ensures l in Mem() && Mem()[l] == data[pt.view[l].frame]
      ensures 0 < pt.view[l].frame < pt.pmm.db.Length && pt.pmm.db[pt.view[l].frame].flags.alloc
      ensures pt.view[l].flags == want[l]
        || (pt.view[l].flags == want[l].(write := false) && pt.pmm.db[pt.view[l].frame].flags.cow)
      ensures pt.pmm.db[pt.view[l].frame].u2.Sharers? && pt.pmm.db[pt.view[l].frame].u2.count >= 2
    {
      pt.MappedFrame(l);
      MappedStaysAllocated(pt.pmm.Abs(), pt.tables.Keys, pt.view, want, data, l);
      assert EntryOk(pt.pmm.Abs(), pt.view, want, data, l);
      var f := pt.view[l].frame;
      assert pt.pmm.Abs().frames[f] == View(pt.pmm.db[f]);
      assert PageOk(pt.pmm.db[f]);
    }

    /** A store through a writable entry. */
    method StorePage(root: nat, vaddr: nat, frame: nat, b: bv8)
      requires PagesValid() && pt.Here(root, vaddr) in pt.view
      requires pt.view[pt.Here(root, vaddr)].frame == frame && pt.view[pt.Here(root, vaddr)].flags.write
      modifies this`data
      ensures PagesValid()
      ensures pt.Here(root, vaddr) in old(Mem()) && |old(Mem())[pt.Here(root, vaddr)]| == 4096
      ensures Mem() == old(Mem())[pt.Here(root, vaddr) := old(Mem())[pt.Here(root, vaddr)][vaddr % 4096 := b]]
    {
      hide FrameStates.Valid, Pmm.Sound, Tree, Denotes, Leads, FramesOk, EntryOk, Contents;
      ghost var l := pt.Here(root, vaddr);
      BackedPage(l);
      StoreInPlace(pt.pmm.Abs(), pt.tables.Keys, pt.view, want, data, l, data[frame][vaddr % 4096 := b]);
      Poke(frame, vaddr % 4096, b);
    }

    /** What the hardware does to a frame on a store. */
    method Poke(frame: nat, offset: nat, b: bv8)
      requires frame in data && offset < |data[frame]|
      modifies this`data
      ensures data == old(data)[frame := old(data)[frame][offset := b]]
    {
      data := data[frame := data[frame][offset := b]];
    }

    /** One turn of _vma_free_pages. The frame stays allocated. */
    method DropPage(root: nat, vaddr: nat)
      requires PagesValid() && pt.IsRoot(root) && UserAddress(vaddr)
      modifies this`want, pt, pt.pmm, pt.pmm.db
      ensures PagesValid() && Room() >= old(Room()) && Spare() == old(Spare())
      ensures Trimmed(old(pt.at), old(pt.via), pt.at, pt.via, root)
      ensures Mem() == old(Mem()) - {pt.Here(root, vaddr)} && want == old(want) - {pt.Here(root, vaddr)}
      ensures pt.view == old(pt.view) - {pt.Here(root, vaddr)} && Shared() <= old(Shared())
    {
      hide FrameStates.Valid, Pmm.Sound, Tree, Denotes, Leads, FramesOk, Drop, OfOthers, SameExcess, Returned, EntryOk,
           Contents, NoVacantBut, UserAddress, SharedPages, SameRoots, ViaLess, Missing;
      ghost var s, tables, view, l := pt.pmm.Abs(), pt.tables.Keys, pt.view, pt.Here(root, vaddr);
      TrimmedNone(pt.at, pt.via, root);
      if l !in view { NotThere(l); }
      pt.UnmapPage(root, vaddr);
      if l in view {
        CowPages.DropPage(s, tables, view, want, data, l, pt.pmm.Abs(), pt.tables.Keys, tables - pt.tables.Keys);
        DropPageShared(s, tables, view, want, data, l, pt.pmm.Abs(), tables - pt.tables.Keys);
        BookAndIsolation(s, tables, view, want, data);
        DropRoom(s, tables, view, want, data, l, pt.pmm.Abs(), pt.tables.Keys);
      }
      want := want - {l};
    }

    lemma NotThere(l: Loc)
      requires PagesValid() && l !in pt.view
      ensures Mem() - {l} == Mem() && want - {l} == want
    {
      hide FrameStates.Valid, Pmm.Sound, Tree, Denotes, Leads, FramesOk, EntryOk;
      assert l !in want;
    }

    // ---- the pages of an area

    lemma SameKeys()
      requires PagesValid()
      ensures want.Keys == pt.view.Keys == Mem().Keys
    {
      forall l | l in pt.view ensures l in Mem() { BackedPage(l); }
    }

    /** _vma_allocate_pages. */
    method AllocatePages(root: nat, v: Vma)
      requires PagesValid() && pt.IsRoot(root) && v.Shaped() && v.End() <= USER_TOP
      requires Pages(root, v) !! want.Keys && Room() >= 4 * (v.size / 0x1000)
      modifies this`data, this`want, pt, pt.pmm, pt.pmm.db
      ensures PagesValid() && Room() >= old(Room()) - 4 * (v.size / 0x1000) && Shared() <= old(Shared())
      ensures Spare() == old(Spare()) - v.size / 0x1000
      ensures SameRoots(old(pt.at), pt.at)
      ensures ViaGrown(old(pt.via), pt.via, root, PFlags(true, ToPFlags(v.flags).user, false, false))
      ensures Mem() == Fill(old(Mem()), Pages(root, v), Zeroes())
      ensures want == Fill(old(want), Pages(root, v), ToPFlags(v.flags))
    {
      hide Pmm.Sound, Pmm.Abs, Tree, Denotes, Leads, FramesOk, PagesOk, Contents, ToPFlags, Fill, FirstPages, Pages,
           PageTable.Valid, SharedPages, Machine.Spare, Machine.Room;
      ghost var flags := ToPFlags(v.flags);
      NoPages(Mem(), root, v, Zeroes());
      NoPages(want, root, v, flags);
      var i := 0;
      while i < v.size / 0x1000
        invariant 0 <= i <= v.size / 0x1000
        invariant PagesValid() && SameRoots(old(pt.at), pt.at)
        invariant ViaGrown(old(pt.via), pt.via, root, PFlags(true, flags.user, false, false))
        invariant Room() >= old(Room()) - 4 * i && Spare() == old(Spare()) - i && Shared() <= old(Shared())
        invariant Mem() == Fill(old(Mem()), FirstPages(root, v, i), Zeroes())
        invariant want == Fill(old(want), FirstPages(root, v, i), flags)
      {
        PageStep(root, v, i);
        ghost var l := Loc(root, v.base / 0x1000 + i);
        FillStep(old(Mem()), FirstPages(root, v, i), l, Zeroes());
        FillStep(old(want), FirstPages(root, v, i), l, flags);
        SameKeys();
        assert l !in pt.view;
        ghost var via1 := pt.via;
        AddZeroPage(root, v.base + i * 0x1000, ToPFlags(v.flags));
        ViaGrownTwice(old(pt.via), via1, pt.via, root, PFlags(true, flags.user, false, false));
        i := i + 1;
      }
    }

    /** _vma_free_pages. */
    method FreePages(root: nat, v: Vma)
      requires PagesValid() && pt.IsRoot(root) && v.Shaped() && v.End() <= USER_TOP
      modifies this`want, pt, pt.pmm, pt.pmm.db
      ensures PagesValid() && Room() >= old(Room()) && Spare() == old(Spare()) && Shared() <= old(Shared())
      ensures Trimmed(old(pt.at), old(pt.via), pt.at, pt.via, root)
      ensures Mem() == old(Mem()) - Pages(root, v) && want == old(want) - Pages(root, v)
    {
      hide Pmm.Sound, Pmm.Abs, Tree, Denotes, Leads, FramesOk, PagesOk, Contents, FirstPages, Pages, PageTable.Valid,
           SharedPages, Trimmed, Machine.Spare, Machine.Room;
      TrimmedNone(pt.at, pt.via, root);
      NoPages(Mem(), root, v, Zeroes());
      NoPages(want, root, v, PFlags(false, false, false, false));
      var i := 0;
      while i < v.size / 0x1000
        invariant 0 <= i <= v.size / 0x1000
        invariant PagesValid() && Room() >= old(Room()) && Spare() == old(Spare()) && Shared() <= old(Shared())
        invariant Trimmed(old(pt.at), old(pt.via), pt.at, pt.via, root)
        invariant Mem() == old(Mem()) - FirstPages(root, v, i) && want == old(want) - FirstPages(root, v, i)
      {
        PageStep(root, v, i);
        ghost var at1, via1 := pt.at, pt.via;
        RootKept(old(pt.at), old(pt.via), pt.at, pt.via, root);
        DropPage(root, v.base + i * 0x1000);
        TrimmedTwice(old(pt.at), old(pt.via), at1, via1, pt.at, pt.via, root);
        i := i + 1;
      }
    }

    /** The page loop of vmm_fork for a private area. */
    method CopyPages(parent: nat, child: nat, v: Vma)
      requires PagesValid() && pt.IsRoot(parent) && pt.IsRoot(child) && parent != child
      requires v.Shaped() && v.End() <= USER_TOP && Room() >= 3 * (v.size / 0x1000)
      requires Pages(child, v) !! want.Keys
      requires forall l :: l in Pages(parent, v) ==> l in want && want[l] == ToPFlags(v.flags)
      modifies this`want, pt, pt.pmm, pt.pmm.db
      ensures PagesValid() && Room() >= old(Room()) - 3 * (v.size / 0x1000) && Spare() == old(Spare())
      ensures SameRoots(old(pt.at), pt.at)
      ensures ViaGrown(old(pt.via), pt.via, child, PFlags(true, ToPFlags(v.flags).user, false, false))
      ensures Mem() == CopyOver(old(Mem()), Pages(child, v), parent)
      ensures want == Fill(old(want), Pages(child, v), ToPFlags(v.flags))
      ensures old(Twins(pt.view, parent, child)) ==> Twins(pt.view, parent, child)
      ensures NewlyShared(old(Shared()), Shared(), {parent, child})
    {
      hide Pmm.Sound, Pmm.Abs, Tree, Denotes, Leads, FramesOk, PagesOk, Contents, ToPFlags, FirstPages, PageTable.Valid,
           Fill, CopyOver, Pages, Twins, ForkView, SharedPages, Machine.Spare, Machine.Room;
      ghost var flags := ToPFlags(v.flags);
      SameKeys();
      NoPages(want, child, v, flags);
      NoPages(Mem(), child, v, Zeroes());
      assert CopyOver(Mem(), FirstPages(child, v, 0), parent) == Mem() by { CopyNone(Mem(), child, v, parent); }
      var i := 0;
      while i < v.size / 0x1000
        invariant 0 <= i <= v.size / 0x1000
        invariant PagesValid() && SameRoots(old(pt.at), pt.at) && Spare() == old(Spare())
        invariant ViaGrown(old(pt.via), pt.via, child, PFlags(true, flags.user, false, false))
        invariant Room() >= old(Room()) - 3 * i && NewlyShared(old(Shared()), Shared(), {parent, child})
        invariant Mem() == CopyOver(old(Mem()), FirstPages(child, v, i), parent)
        invariant want == Fill(old(want), FirstPages(child, v, i), flags)
        invariant old(Twins(pt.view, parent, child)) ==> Twins(pt.view, parent, child)
      {
        PageStep(parent, v, i);
        PageStep(child, v, i);
        ghost var l, c := Loc(parent, v.base / 0x1000 + i), Loc(child, v.base / 0x1000 + i);
        OwnPages(child, v, i);
        FillStep(old(want), FirstPages(child, v, i), c, flags);
        FillElsewhere(old(want), FirstPages(child, v, i), l, flags);
        CopyStep(old(Mem()), FirstPages(child, v, i), c, parent);
        SameKeys();
        if Twins(pt.view, parent, child) { TwinsMore(pt.view, parent, child, v.base / 0x1000 + i, flags); }
        ghost var via1 := pt.via;
        ForkPage(parent, child, v.base + i * 0x1000, ToPFlags(v.flags));
        ViaGrownTwice(old(pt.via), via1, pt.via, child, PFlags(true, flags.user, false, false));
        i := i + 1;
      }
    }

    // ---- whole address spaces

    /** vmm_create. */
    method Create() returns (root: Link)
      requires Valid()
      modifies this`spaces, pt`tables, pt`at, pt`pos, pt.pmm, pt.pmm.db
      ensures Valid() && Mem() == old(Mem()) && Shared() <= old(Shared()) && Spare() == old(Spare())
      ensures root.Null? <==> old(Room()) == 0
      ensures root.Null? ==> spaces == old(spaces) && pt.at == old(pt.at) && Room() == old(Room())
      ensures root.To? ==> root.pfn !in old(spaces) && spaces == old(spaces)[root.pfn := Space([], MMAP_BASE)]
      ensures root.To? ==> Room() == old(Room()) - 1 && forall l :: l in pt.view ==> l.root != root.pfn
      ensures root.To? ==> pt.at == old(pt.at)[Pos(root.pfn, 4, 0) := root.pfn]
      ensures root.To? ==> forall q :: q in old(pt.at) || q in pt.via ==> q.root != root.pfn
    {
      hide FrameStates.Valid, Pmm.Sound, Tree, Denotes, Leads, FramesOk, Alloc, PagesOk, Contents, WantOk, OfOthers,
           SameExcess, NoVacantBut;
      ghost var s, tables, view := pt.pmm.Abs(), pt.tables.Keys, pt.view;
      ViaInside();
      root := pt.PteAlloc();
      if root.To? {
        AllocOther(s, tables, view);
        AllocUserFrame(s, tables, view, Loc(0, 0));
        OtherFrames(s, tables, view, want, data, pt.pmm.Abs(), pt.tables.Keys);
        SameShared(s, view, pt.pmm.Abs());
        assert root.pfn !in spaces;
        WantNew(spaces, want, root.pfn, Space([], MMAP_BASE));
        spaces := spaces[root.pfn := Space([], MMAP_BASE)];
      }
    }

    /** vmm_map without an address, for private memory that is backed at once. */
    method MapAnonymous(root: nat, size: nat, flags: bv32) returns (base: nat)
      requires Valid() && root in spaces && size > 0
      requires !Has(flags, LAZY) && !Has(flags, SHARED) && !Has(flags, FIXED)
      requires Room() >= 4 * (AlignUp(size) / 0x1000)
      modifies this, pt, pt.pmm, pt.pmm.db
      ensures Valid() && Room() >= old(Room()) - 4 * (AlignUp(size) / 0x1000) && Shared() <= old(Shared())
      ensures Spare() == old(Spare()) - if base == 0 then 0 else AlignUp(size) / 0x1000
      ensures base == Gap(old(spaces)[root].areas, old(spaces)[root].mmapBase, AlignUp(size))
      ensures base == 0 ==> spaces == old(spaces) && Mem() == old(Mem())
      ensures base != 0 ==>
        var v := Vma(base, AlignUp(size), flags | ALLOCATED);
        && spaces == old(spaces)[root := Space(Insert(old(spaces)[root].areas, v), base)]
        && Pages(root, v) !! old(Mem()).Keys
        && Mem() == Fill(old(Mem()), Pages(root, v), Zeroes())
      ensures ViaGrown(old(pt.via), pt.via, root, PFlags(true, Has(flags, USER), false, false))
    {
      hide FrameStates.Valid, Pmm.Sound, Pmm.Abs, Tree, Denotes, Leads, FramesOk, PagesOk, Contents, WantOk,
           PageTable.Valid, ToPFlags, ViaGrown, Fill, Pages, Good, RangeFree, Insert, Gap, Machine.Room, SharedPages;
      var sp := spaces[root];
      var bytes := AlignUp(size);
      base := Gap(sp.areas, sp.mmapBase, bytes);
      ViaGrownNone(pt.via, root, PFlags(true, Has(flags, USER), false, false));
      GapIsHighest(sp.areas, sp.mmapBase, bytes);
      if base == 0 {
        return;
      }
      var v := Vma(base, bytes, flags | ALLOCATED);
      AllocatedBitOnly(flags);
      UserBit(flags);
      SamePages(root, v, flags);
      RoomNotTaken(sp.areas, base, v.End());
      SameKeys();
      forall l | l in Pages(root, v) ensures l !in want { WantOfRoom(spaces, want, root, v, l); }
      WantInsert(spaces, want, root, v);
      InsertBacked(sp.areas, v);
      spaces := spaces[root := sp.(mmapBase := base)];
      ghost var with := old(spaces)[root := sp.(areas := Insert(sp.areas, v))];
      AllocatePages(root, v.(flags := flags));
      sp := sp.(areas := Insert(sp.areas, v), mmapBase := base);
      WantSame(with, want, root, sp);
      spaces := spaces[root := sp];
      assert spaces == with[root := sp];
    }

    lemma UserBit(flags: bv32)
      ensures ToPFlags(flags).user <==> Has(flags, USER)
    {
    }

    lemma InsertBacked(vs: seq<Vma>, v: Vma)
      requires Good(vs) && v.Shaped() && RangeFree(vs, v.base, v.End()) && Backed(v)
      requires forall i :: 0 <= i < |vs| ==> Backed(vs[i])
      ensures Good(Insert(vs, v)) && forall i :: 0 <= i < |Insert(vs, v)| ==> Backed(Insert(vs, v)[i])
    {
      RoomNotTaken(vs, v.base, v.End());
      InsertGood(vs, v);
    }

    /** Free the pages of area `i` and remove it from the tree. */
    method DropArea(root: nat, i: nat)
      requires Valid() && root in spaces && i < |spaces[root].areas|
      modifies this`want, this`spaces, pt, pt.pmm, pt.pmm.db
      ensures Valid() && Room() >= old(Room()) && Spare() == old(Spare()) && Shared() <= old(Shared())
      ensures Trimmed(old(pt.at), old(pt.via), pt.at, pt.via, root)
      ensures spaces == old(spaces)[root := old(spaces)[root].(areas := DropAt(old(spaces)[root].areas, i))]
      ensures Mem() == old(Mem()) - Pages(root, old(spaces)[root].areas[i])
    {
      hide FrameStates.Valid, Pmm.Sound, Pmm.Abs, Tree, Denotes, Leads, FramesOk, PagesOk, Contents, WantOk,
           PageTable.Valid, Pages;
      var sp := spaces[root];
      assert sp.areas[i].Shaped() && Backed(sp.areas[i]);
      WantRemove(spaces, want, root, i);
      DropAtGood(sp.areas, i);
      hide Good;
      FreePages(root, sp.areas[i]);
      spaces := spaces[root := sp.(areas := DropAt(sp.areas, i))];
    }

    /** The split vmm_unmap makes at the start of the range. */
    method SplitStart(root: nat, base: nat)
      requires Valid() && root in spaces && base % PAGE == 0
      modifies this`spaces
      ensures Valid()
      ensures spaces == old(spaces)[root := old(spaces)[root].(areas := SplitBase(old(spaces)[root].areas, base))]
    {
      hide FrameStates.Valid, Pmm.Sound, Pmm.Abs, Tree, Denotes, Leads, FramesOk, PagesOk, Contents, WantOk,
           PageTable.Valid;
      var sp := spaces[root];
      SplitBaseExact(sp.areas, base);
      var f := Find(sp.areas, base);
      if f >= 0 && sp.areas[f].base < base { SplitBacked(sp.areas, f, base); }
      WantSame(spaces, want, root, sp.(areas := SplitBase(sp.areas, base)));
      hide Good;
      if f >= 0 && sp.areas[f].base < base {
        sp := sp.(areas := Split(sp.areas, f, base));
      }
      spaces := spaces[root := sp];
    }

    /** vmm_unmap: the areas become what Unmap says, and exactly the pages they no longer cover go. */
    method Unmap(root: nat, addr: nat, size: nat)
      requires Valid() && root in spaces && size > 0
      modifies this`want, this`spaces, pt, pt.pmm, pt.pmm.db
      ensures Valid() && Room() >= old(Room()) && Spare() == old(Spare()) && Shared() <= old(Shared())
      ensures Trimmed(old(pt.at), old(pt.via), pt.at, pt.via, root)
      ensures var base := AlignDown(addr);
        spaces == old(spaces)[root := old(spaces)[root].(areas := Vmas.Unmap(old(spaces)[root].areas, base,
          base + AlignUp(size)))]
      ensures Mem() == Surviving(old(Mem()), spaces)
    {
      hide Machine.Valid, Machine.Mem, AlignDown, AlignUp, RemoveWithin, Covers, Vmas.Unmap, SplitBase, Surviving;
      var base := AlignDown(addr);
      UnmapSweeps(spaces[root].areas, base, base + AlignUp(size));
      SplitStart(root, base);
      SweepAreas(root, base, base + AlignUp(size));
      MemKeys();
      SurvivingIs(old(Mem()), Mem(), spaces);
    }

    /** What is mapped is what the areas cover. */
    lemma MemKeys()
      requires Valid()
      ensures forall l: Loc :: l in Mem() <==> Covers(spaces, l)
    {
      SameKeys();
      forall l: Loc ensures l in Mem() <==> Covers(spaces, l) {
        assert PageWanted(spaces, want, l);
        if l.root in spaces {
          GoodAreas(l.root);
          FindExact(spaces[l.root].areas, l.page * 0x1000);
          FlagsMapped(spaces[l.root].areas, l.page * 0x1000);
        }
      }
    }

    /** The loop of vmm_unmap: areas inside the range go, and it stops at the first one above it. */
    method SweepAreas(root: nat, base: nat, end: nat)
      requires Valid() && root in spaces
      modifies this`want, this`spaces, pt, pt.pmm, pt.pmm.db
      ensures Valid() && Room() >= old(Room()) && Spare() == old(Spare()) && Shared() <= old(Shared())
      ensures Trimmed(old(pt.at), old(pt.via), pt.at, pt.via, root)
      ensures spaces == old(spaces)[root := old(spaces)[root].(areas := RemoveWithin(old(spaces)[root].areas, base,
        end))]
      ensures forall l :: l in Mem() ==> l in old(Mem()) && Mem()[l] == old(Mem())[l]
    {
      hide Machine.Valid, Machine.Mem, RemoveWithin, Pages, Good, Swept, Kept, DropAt;
      GoodAreas(root);
      ghost var sp := spaces[root];
      ghost var ws := sp.areas;
      SweptNone(ws, base, end);
      ghost var j := 0;
      var i := 0;
      while i < |spaces[root].areas|
        invariant Room() >= old(Room()) && Spare() == old(Spare()) && Shared() <= old(Shared())
        invariant Trimmed(old(pt.at), old(pt.via), pt.at, pt.via, root)
        invariant Valid() && 0 <= j <= |ws| && i == Kept(ws, j, base, end) && i + |ws| - j == |Swept(ws, j, base, end)|
        invariant spaces == old(spaces)[root := sp.(areas := Swept(ws, j, base, end))]
        invariant forall l :: l in Mem() ==> l in old(Mem()) && Mem()[l] == old(Mem())[l]
        decreases |ws| - j
      {
        var v := spaces[root].areas[i];
        Sweep(ws, j, base, end);
        if base <= v.base && v.End() <= end {
          DropArea(root, i);
        } else if v.base >= end {
          break;
        } else {
          i := i + 1;
        }
        j := j + 1;
      }
      SweepEnd(ws, j, base, end);
    }

    lemma GoodAreas(root: nat)
      requires Valid() && root in spaces
      ensures Good(spaces[root].areas) && AllShaped(spaces[root].areas) && spaces[root].mmapBase <= MMAP_BASE
    {
    }

    /** The areas when the first `j` have been looked at, and how many of those are left. */
    ghost function Swept(ws: seq<Vma>, j: nat, base: nat, end: nat): seq<Vma>
      requires j <= |ws|
    {
      RemoveWithin(ws[..j], base, end) + ws[j..]
    }

    ghost function Kept(ws: seq<Vma>, j: nat, base: nat, end: nat): nat
      requires j <= |ws|
    {
      |RemoveWithin(ws[..j], base, end)|
    }

    lemma SweptNone(ws: seq<Vma>, base: nat, end: nat)
      ensures Swept(ws, 0, base, end) == ws && Kept(ws, 0, base, end) == 0
    {
      assert ws[..0] == [];
    }

    /** One turn of the sweep. */
    lemma Sweep(ws: seq<Vma>, j: nat, base: nat, end: nat)
      requires j < |ws|
      ensures var i, now := Kept(ws, j, base, end), Swept(ws, j, base, end);
        && i < |now| && now[i] == ws[j]
        && |Swept(ws, j + 1, base, end)| == Kept(ws, j + 1, base, end) + |ws| - (j + 1)
        && (if base <= ws[j].base && ws[j].End() <= end
            then Kept(ws, j + 1, base, end) == i && DropAt(now, i) == Swept(ws, j + 1, base, end)
            else Kept(ws, j + 1, base, end) == i + 1 && now == Swept(ws, j + 1, base, end))
    {
      var done := RemoveWithin(ws[..j], base, end);
      assert ws[..j+1] == ws[..j] + [ws[j]];
      RemoveWithinApp(ws[..j], [ws[j]], base, end);
      assert ws[j..] == [ws[j]] + ws[j+1..];
      assert done + [ws[j]] + ws[j+1..] == done + ws[j..];
      assert DropAt(done + ws[j..], |done|) == done + ws[j+1..];
    }

    lemma SweepEnd(ws: seq<Vma>, j: nat, base: nat, end: nat)
      requires j <= |ws| && Good(ws) && (j < |ws| ==> ws[j].base >= end)
      ensures Swept(ws, j, base, end) == RemoveWithin(ws, base, end)
    {
      assert ws == ws[..j] + ws[j..];
      RemoveWithinApp(ws[..j], ws[j..], base, end);
      SuffixGood(ws, j);
      RemoveWithinBeyond(ws[j..], base, end);
    }

    lemma SuffixGood(ws: seq<Vma>, j: nat)
      requires j <= |ws| && Good(ws)
      ensures Good(ws[j..])
    {
      forall a, b | 0 <= a < b < |ws[j..]| ensures ws[j..][a].Below(ws[j..][b]) { assert ws[j+a].Below(ws[j+b]); }
      forall a | 0 <= a < |ws[j..]| ensures ws[j..][a].Shaped() { assert ws[j+a].Shaped(); }
    }

    /** One turn of the area loop of vmm_fork. */
    method ForkArea(parent: nat, child: nat, i: nat)
      requires Valid() && parent in spaces && child in spaces && parent != child && i < |spaces[parent].areas|
      requires spaces[child].areas == spaces[parent].areas[..i]
      requires Room() >= 3 * (spaces[parent].areas[i].size / 0x1000)
      modifies this`want, this`spaces, pt, pt.pmm, pt.pmm.db
      ensures Valid() && Room() >= old(Room()) - 3 * (old(spaces)[parent].areas[i].size / 0x1000)
      ensures Spare() == old(Spare())
      ensures spaces == old(spaces)[child := old(spaces)[child].(areas := old(spaces)[parent].areas[..i+1])]
      ensures Mem() == CopyOver(old(Mem()), Pages(child, old(spaces)[parent].areas[i]), parent)
      ensures old(Twins(pt.view, parent, child)) ==> Twins(pt.view, parent, child)
      ensures NewlyShared(old(Shared()), Shared(), {parent, child})
      ensures NewlyBarred(old(Barred()), Barred(), BarredBy(Has(old(spaces)[parent].areas[i].flags, USER), child))
    {
      hide SharedPages, BarredOf, ViaGrown, NewlyBarred, Has, Twins, Pmm.Sound, Pmm.Abs, Tree, Denotes, Leads, FramesOk,
           PagesOk, PageTable.Valid, Machine.Mem, WantOk, Pages, Insert, ToPFlags, Good, RangeFree, Fill, CopyOver;
      var areas := spaces[parent].areas;
      var v := areas[i];
      AppendArea(areas, i);
      assert Backed(v);
      forall l | l in Pages(child, v) ensures l !in want { WantOfRoom(spaces, want, child, v, l); }
      forall l | l in Pages(parent, v) ensures l in want && want[l] == ToPFlags(v.flags) {
        WantOfArea(spaces, want, parent, i, l);
      }
      WantInsert(spaces, want, child, v);
      PrefixGood(areas, i + 1);
      CopyPages(parent, child, v);
      UserBit(v.flags);
      GrownBarred(old(pt.via), pt.via, child, ToPFlags(v.flags).user);
      spaces := spaces[child := spaces[child].(areas := Insert(spaces[child].areas, v))];
    }

    lemma PrefixGood(vs: seq<Vma>, i: nat)
      requires Good(vs) && i <= |vs|
      ensures Good(vs[..i])
    {
      forall j, k | 0 <= j < k < i ensures vs[..i][j].Below(vs[..i][k]) { assert vs[j].Below(vs[k]); }
      forall j | 0 <= j < i ensures vs[..i][j].Shaped() { assert vs[j].Shaped(); }
    }

    /** The area loop of vmm_fork, with `child` a new address space. */
    method ForkAreas(parent: nat, child: nat)
      requires Valid() && parent in spaces && child in spaces && parent != child && spaces[child].areas == []
      requires Room() >= 3 * PageCount(spaces[parent].areas) && Twins(pt.view, parent, child)
      modifies this`want, this`spaces, pt, pt.pmm, pt.pmm.db
      ensures Valid() && Room() >= old(Room()) - 3 * PageCount(old(spaces)[parent].areas) && Spare() == old(Spare())
      ensures spaces == old(spaces)[child := old(spaces)[child].(areas := old(spaces)[parent].areas)]
      ensures Mem() == CopyOver(old(Mem()), Covered(child, old(spaces)[parent].areas), parent)
      ensures Twins(pt.view, parent, child) && NewlyShared(old(Shared()), Shared(), {parent, child})
      ensures NewlyBarred(old(Barred()), Barred(), BarredBy(AllUser(old(spaces)[parent].areas), child))
    {
      hide Machine.Valid, Machine.Mem, Pages, CopyOver, Covered, PageCount, NewlyBarred, BarredOf, Machine.Room,
           SharedPages, Twins;
      ghost var areas, m := spaces[parent].areas, Mem();
      var i := 0;
      CoveredNone(m, parent, child, areas);
      NewlyBarredNone(Barred(), BarredBy(AllUser(areas), child));
      PageCountPrefix(areas, 0);
      while i < |spaces[parent].areas|
        invariant Valid() && 0 <= i <= |areas|
        invariant spaces == old(spaces)[child := old(spaces)[child].(areas := areas[..i])]
        invariant Room() >= old(Room()) - 3 * PageCount(areas[..i]) && Spare() == old(Spare())
        invariant Mem() == CopyOver(m, Covered(child, areas[..i]), parent) && Twins(pt.view, parent, child)
        invariant NewlyShared(old(Shared()), Shared(), {parent, child})
        invariant NewlyBarred(old(Barred()), Barred(), BarredBy(AllUser(areas), child))
      {
        PageCountPrefix(areas, i);
        PageCountPrefix(areas, i + 1);
        CopyMore(m, child, areas, i, parent);
        ghost var barred1 := Barred();
        ForkArea(parent, child, i);
        assert AllUser(areas) ==> Has(areas[i].flags, USER);
        NewlyBarredTwice(old(Barred()), barred1, Barred(), BarredBy(Has(areas[i].flags, USER), child),
                         BarredBy(AllUser(areas), child));
        i := i + 1;
      }
      assert areas[..i] == areas;
    }

    /** vmm_fork: the child has the areas of the parent and sees what the parent sees; nobody else notices. */
    method Fork(parent: nat) returns (child: nat)
      requires Valid() && parent in spaces && Room() > 3 * PageCount(spaces[parent].areas)
      modifies this`want, this`spaces, pt, pt.pmm, pt.pmm.db
      ensures Valid() && child !in old(spaces) && Room() >= old(Room()) - 1 - 3 * PageCount(old(spaces)[parent].areas)
      ensures Spare() == old(Spare())
      ensures spaces == old(spaces)[child := old(spaces)[parent]]
      ensures Mem() == ForkMem(old(Mem()), parent, child) && Twins(pt.view, parent, child)
      ensures NewlyShared(old(Shared()), Shared(), {parent, child})
      ensures NewlyBarred(old(Barred()), Barred(), BarredBy(AllUser(old(spaces)[parent].areas), child))
    {
      hide PagesValid, Machine.Mem, WantOk, Pages, Good, CopyOver, ForkMem, SpaceOk, Covered, PageCount, NewlyBarred,
           BarredOf, Machine.Room, SharedPages, AllUser;
      ghost var areas, m := spaces[parent].areas, Mem();
      GoodAreas(parent);
      SameKeys();
      var root := Create();
      child := root.pfn;
      ForkMemExact(m, old(spaces), old(want), parent, child);
      ForkAreas(parent, child);
      SetMmapBase(child, spaces[parent].mmapBase);
    }

    method SetMmapBase(root: nat, base: nat)
      requires Valid() && root in spaces && base <= MMAP_BASE
      modifies this`spaces
      ensures Valid() && spaces == old(spaces)[root := old(spaces)[root].(mmapBase := base)]
    {
      hide PageTable.Valid, PagesOk, WantOk, Good;
      WantSame(spaces, want, root, spaces[root].(mmapBase := base));
      spaces := spaces[root := spaces[root].(mmapBase := base)];
    }

    /** The loop of vmm_destroy: all areas go with their pages. */
    method DropAreas(root: nat)
      requires Valid() && root in spaces
      modifies this`want, this`spaces, pt, pt.pmm, pt.pmm.db
      ensures Valid() && Spare() == old(Spare()) && Shared() <= old(Shared())
      ensures Trimmed(old(pt.at), old(pt.via), pt.at, pt.via, root)
      ensures spaces == old(spaces)[root := old(spaces)[root].(areas := [])]
      ensures Mem() == MemOfOthers(old(Mem()), root)
    {
      hide PagesValid, Machine.Mem, WantOk, Pages, Good, SpaceOk, Trimmed, PageTable.IsRoot;
      ghost var areas, j := spaces[root].areas, 0;
      TrimmedNone(pt.at, pt.via, root);
      while |spaces[root].areas| > 0
        invariant Valid() && 0 <= j <= |areas| && Spare() == old(Spare()) && Shared() <= old(Shared())
        invariant Trimmed(old(pt.at), old(pt.via), pt.at, pt.via, root)
        invariant spaces == old(spaces)[root := old(spaces)[root].(areas := areas[j..])]
        invariant forall l :: l in Mem() ==> l in old(Mem()) && Mem()[l] == old(Mem())[l]
        invariant forall l :: l in old(Mem()) && l.root != root ==> l in Mem()
        decreases |areas| - j
      {
        AreaPagesOwn(root, areas[j]);
        assert areas[j..][0] == areas[j] && DropAt(areas[j..], 0) == areas[j+1..];
        ghost var at1, via1 := pt.at, pt.via;
        DropArea(root, 0);
        TrimmedTwice(old(pt.at), old(pt.via), at1, via1, pt.at, pt.via, root);
        j := j + 1;
      }
      WantGone(spaces, want, root);
      SameKeys();
    }

    /** vmm_destroy: the address space goes, and nobody else notices. Its tables are free frames again, one and all,
        while the tables of the others stay. */
    method Destroy(root: nat)
      requires Valid() && root in spaces
      modifies this`want, this`spaces, pt, pt.pmm, pt.pmm.db
      ensures Valid() && spaces == old(spaces) - {root} && Shared() <= old(Shared())
      ensures Mem() == MemOfOthers(old(Mem()), root)
      ensures !pt.IsRoot(root) && TablesOf(pt.at, root) == {} && pt.at == OfOthers(old(pt.at), root)
      ensures TablesOf(old(pt.at), root) != {} && Room() == old(Room()) + |TablesOf(old(pt.at), root)|
      ensures Spare() == old(Spare())
      ensures Barred() <= old(Barred())
    {
      hide PagesValid, Machine.Mem, WantOk, Good, SpaceOk, Trimmed, BarredOf, OfOthers, TablesOf, SharedPages, Contents;
      TableCount();
      DropAreas(root);
      WantGone(spaces, want, root);
      NothingMapped(root);
      ghost var at1, via1 := pt.at, pt.via;
      FreeRoot(root);
      Felled(old(pt.at), old(pt.via), at1, via1, root);
      TableCount();
      spaces := spaces - {root};
    }

    lemma NothingMapped(root: nat)
      requires PagesValid() && forall l :: l in want ==> l.root != root
      ensures forall l :: l in pt.view ==> l.root != root
    {
      SameKeys();
    }

    lemma OthersOnly(root: nat)
      requires forall l :: l in pt.view ==> l.root != root
      ensures MemOfOthers(Mem(), root) == Mem()
    {
    }

    lemma PositionsAreTables()
      requires pt.Valid()
      ensures pt.pos.Keys == pt.tables.Keys
    {
    }

    lemma TableCount()
      requires PagesValid()
      ensures |pt.at| == |pt.tables.Keys|
    {
      TreeSize(pt.tables, pt.at, pt.pos);
    }

    /** pte_free on a root that maps nothing any more. */
    method FreeRoot(root: nat)
      requires PagesValid() && pt.IsRoot(root) && forall l :: l in pt.view ==> l.root != root
      modifies pt, pt.pmm, pt.pmm.db
      ensures PagesValid() && pt.view == old(pt.view) && Spare() == old(Spare()) && Shared() <= old(Shared())
      ensures pt.at == OfOthers(old(pt.at), root) && pt.via == ViaOfOthers(old(pt.via), root)
    {
      hide FrameStates.Valid, Pmm.Sound, Pmm.Abs, Tree, Denotes, Leads, FramesOk, EntryOk, SameExcess, Spared, Gone,
           OfOthers, ViaOfOthers;
      ghost var s, tables, view := pt.pmm.Abs(), pt.tables.Keys, pt.view;
      PositionsAreTables();
      pt.PteFree(root);
      assert pt.view == view;
      SparedPages(s, tables, view, Under(Pos(root, 4, 0)), pt.pmm.Abs());
      SparedLength(s, tables, view, Under(Pos(root, 4, 0)), pt.pmm.Abs());
      TornDownRoom(s, tables, view, Under(Pos(root, 4, 0)), pt.pmm.Abs(), pt.tables.Keys);
      SameShared(s, view, pt.pmm.Abs());
      OtherFrames(s, tables, view, want, data, pt.pmm.Abs(), pt.tables.Keys);
    }

    /** A space that is created and destroyed leaves no trace: every frame it took is free again. */
    method CreateAndDestroy() returns (made: bool)
      requires Valid()
      modifies this`want, this`spaces, pt, pt.pmm, pt.pmm.db
      ensures Valid() && spaces == old(spaces) && Mem() == old(Mem())
      ensures Room() == old(Room()) && pt.at == old(pt.at) && (made <==> old(Room()) > 0)
    {
      hide PagesValid, WantOk, SpaceOk, BarredOf, SharedPages, Machine.Spare, Machine.Room, TablesOf, OfOthers,
           MemOfOthers, Machine.Mem;
      var root := Create();
      made := root.To?;
      if made {
        BareRoot(old(pt.at), root.pfn);
        OthersOnly(root.pfn);
        Destroy(root.pfn);
      }
    }

    /** The area flags of a page of address space `root`. */
    ghost function Rights(root: nat, vaddr: nat): Lookup
      requires root in spaces
      reads this`spaces
    {
      PageFlags(spaces[root].areas, vaddr / 0x1000)
    }

    /** Every page of an area is mapped, to an allocated frame with at least two sharers. */
    lemma PageOfArea(root: nat, vaddr: nat)
      requires Valid() && root in spaces
      ensures var f := Find(spaces[root].areas, AlignDown(vaddr));
        if f >= 0
        then Rights(root, vaddr) == In(spaces[root].areas[f].flags) && UserAddress(vaddr)
             && pt.Here(root, vaddr) in pt.view && pt.Here(root, vaddr) in want
             && want[pt.Here(root, vaddr)] == ToPFlags(spaces[root].areas[f].flags)
             && !Has(spaces[root].areas[f].flags, LAZY)
        else Rights(root, vaddr) == Nowhere && pt.Here(root, vaddr) !in pt.view
    {
      var areas, a := spaces[root].areas, AlignDown(vaddr);
      var f := Find(areas, a);
      assert a == vaddr / 0x1000 * 0x1000;
      assert Good(areas);
      FindExact(areas, a);
      FlagsMapped(areas, a);
      assert PageWanted(spaces, want, pt.Here(root, vaddr));
      if f >= 0 {
        FlagsOf(areas, f, a);
        assert Backed(areas[f]);
      }
    }

    /** vmm_pf_handler. Nobody's contents change. A write to a page its area lets one write, and whose frame is
        marked copy-on-write, leads to a copy; the branch that would reuse the frame in place is dead. */
    method PageFault(root: nat, addr: nat, isWrite: bool, isUser: bool, isFetch: bool,
        isPresent: bool) returns (r: Errno)
      requires Valid() && root in spaces
      modifies this`data, pt, pt.pmm, pt.pmm.db
      ensures Valid() && Mem() == old(Mem()) && Room() >= old(Room()) - 1 && Shared() <= old(Shared())
      ensures pt.via == old(pt.via) && (r.Ok? ==> !CowMarked(root, addr)) && (!r.Ok? ==> Room() == old(Room()))
      ensures Spare() == old(Spare()) - if r.Ok? && old(SharedFrame(root, addr)) then 1 else 0
      ensures pt.Here(root, addr) in pt.view <==> Rights(root, addr).In?
      ensures r.Ok? ==>
        && Rights(root, addr).In? && pt.view[pt.Here(root, addr)].flags == ToPFlags(Rights(root, addr).flags)
                        && Has(Rights(root, addr).flags, WRITABLE) && (isUser ==> Has(Rights(root, addr).flags, USER))
      ensures r.EFault? <==>
        || Rights(root, addr).Nowhere?
        || (isWrite && !Has(Rights(root, addr).flags, WRITABLE))
        || (isUser && !Has(Rights(root, addr).flags, USER))
        || (isFetch && !Has(Rights(root, addr).flags, EXECUTABLE))
        || !isWrite || !isPresent || !old(CowMarked(root, addr))
      ensures r.ENoMem? <==> !r.EFault? && old(Room()) == 0
    {
      hide FrameStates.Valid, Pmm.Sound, Pmm.Abs, Tree, Denotes, Leads, FramesOk, PagesOk, WantOk, Machine.Mem, Find,
           Has, ToPFlags, Good, PageFlags, AlignDown, PageTable.Valid;
      var page := AlignDown(addr);
      var f := Find(spaces[root].areas, page);
      PageOfArea(root, addr);
      if f < 0 {
        return EFault;
      }
      var v := spaces[root].areas[f];
      if isWrite && !Has(v.flags, WRITABLE) {
        return EFault;
      }
      if isUser && !Has(v.flags, USER) {
        return EFault;
      }
      if isFetch && !Has(v.flags, EXECUTABLE) {
        return EFault;
      }
      ghost var l := pt.Here(root, addr);
      BackedPage(l);
      r := WriteFault(root, addr, v.flags, isWrite && isPresent);
      PageOfArea(root, addr);
    }

    /** Somebody else still holds the frame of a page once its mapping and the pair of counts that came with it are
        dropped. */
    ghost predicate SharedFrame(root: nat, addr: nat)
      reads pt, pt.pmm, pt.pmm.db
    {
      pt.Here(root, addr) in pt.view && pt.view[pt.Here(root, addr)].frame < |pt.pmm.Abs().frames|
      && pt.pmm.Abs().frames[pt.view[pt.Here(root, addr)].frame].refs > 2
    }

    ghost predicate CowMarked(root: nat, addr: nat)
      reads pt, pt.pmm, pt.pmm.db
    {
      pt.Here(root, addr) in pt.view && pt.view[pt.Here(root, addr)].frame < |pt.pmm.Abs().frames|
      && pt.pmm.Abs().frames[pt.view[pt.Here(root, addr)].frame].cow
    }

    /** The part of vmm_pf_handler behind the access checks. */
    method WriteFault(root: nat, addr: nat, flags: bv32, copy: bool) returns (r: Errno)
      requires PagesValid() && pt.IsRoot(root) && UserAddress(addr) && pt.Here(root, addr) in pt.view
      requires pt.Here(root, addr) in want && want[pt.Here(root, addr)] == ToPFlags(flags)
      modifies this`data, pt, pt.pmm, pt.pmm.db
      ensures PagesValid() && Mem() == old(Mem()) && Room() >= old(Room()) - 1 && Shared() <= old(Shared())
      ensures SameRoots(old(pt.at), pt.at) && pt.via == old(pt.via)
      ensures (r.Ok? ==> !CowMarked(root, addr)) && (!r.Ok? ==> Room() == old(Room()))
      ensures Spare() == old(Spare()) - if r.Ok? && old(SharedFrame(root, addr)) then 1 else 0
      ensures r.Ok? ==> pt.Here(root, addr) in pt.view && pt.view[pt.Here(root, addr)].flags == ToPFlags(flags)
      ensures r.EFault? <==> !copy || !old(CowMarked(root, addr))
      ensures r.ENoMem? <==> !r.EFault? && old(Room()) == 0
    {
      hide FrameStates.Valid, Pmm.Sound, Tree, Denotes, Leads, FramesOk, PagesOk, Machine.Mem, Has, ToPFlags,
           PageTable.Valid;
      ghost var l := pt.Here(root, addr);
      BackedPage(l);
      var frame := pt.GetPaddr(root, addr);
      if frame == 0 {
        assert false;
      }
      if !copy {
        return EFault;
      }
      BackedPage(l);
      assert pt.pmm.Abs().frames[frame] == View(pt.pmm.db[frame]);
      if !pt.pmm.db[frame].flags.cow {
        return EFault;
      }
      if pt.pmm.db[frame].u2.count <= 1 {
        assert false;
      }
      var ok := CopyPage(root, addr, frame, ToPFlags(flags));
      r := if ok then Ok else ENoMem;
    }

    /** The area of an address lets user code write to it. */
    ghost predicate Allowed(root: nat, vaddr: nat)
      requires root in spaces
      reads this`spaces
    {
      Rights(root, vaddr).In? && Has(Rights(root, vaddr).flags, WRITABLE) && Has(Rights(root, vaddr).flags, USER)
    }

    /** The hardware lets user code write to an address: all four entries on the way grant it. */
    ghost predicate Writable(root: nat, vaddr: nat)
      reads pt
    {
      var l := pt.Here(root, vaddr);
      l in pt.view && var a := Access(pt.via, root, vaddr, pt.view[l].flags); a.write && a.user
    }

    /** Writing takes a writable leaf for user code, and tables that let user code past. */
    lemma WritableExact(root: nat, vaddr: nat)
      requires PagesValid() && UserAddress(vaddr)
      ensures var l := pt.Here(root, vaddr);
        Writable(root, vaddr) <==>
          l in pt.view && pt.view[l].flags.write && pt.view[l].flags.user && PathOpen(Barred(), root, vaddr)
    {
      hide PagesValid, Access, BarredOf, PathOpen;
      if pt.Here(root, vaddr) in pt.view { AccessNow(root, vaddr); }
    }

    /** What the hardware does with a store by user code: it asks all four entries on the way for write and user
        access, and goes to the frame when they grant it. */
    method TryStore(root: nat, vaddr: nat, b: bv8) returns (done: bool, present: bool)
      requires Valid() && root in spaces && UserAddress(vaddr)
      modifies this`data
      ensures Valid() && (done <==> Writable(root, vaddr)) && (present <==> pt.Here(root, vaddr) in pt.view)
      ensures done ==> pt.Here(root, vaddr) in old(Mem()) && |old(Mem())[pt.Here(root, vaddr)]| == 4096
      ensures Mem() == if done
        then old(Mem())[pt.Here(root, vaddr) := old(Mem())[pt.Here(root, vaddr)][vaddr % 4096 := b]]
        else old(Mem())
    {
      hide FrameStates.Valid, Pmm.Sound, Pmm.Abs, Tree, Denotes, Leads, FramesOk, PagesOk, WantOk, Machine.Mem, SpaceOk,
           Access, PathOpen, BarredOf;
      WritableExact(root, vaddr);
      var e := pt.Translate(root, vaddr);
      present := e.Present?;
      done := present && e.flags.write && e.flags.user;
      if done {
        StorePage(root, vaddr, e.frame, b);
      }
    }

    /** The access to a mapped page: what its leaf gives, and for user code an open path as well. */
    lemma AccessNow(root: nat, vaddr: nat)
      requires PagesValid() && UserAddress(vaddr) && pt.Here(root, vaddr) in pt.view
      ensures var flags := pt.view[pt.Here(root, vaddr)].flags;
        Access(pt.via, root, vaddr, flags) == flags.(user := flags.user && PathOpen(Barred(), root, vaddr))
    {
      hide FrameStates.Valid, Pmm.Sound, Tree, Denotes, Leads, FramesOk, PagesOk, Access, BarredOf, PathOpen, Covering;
      var l := pt.Here(root, vaddr);
      pt.MappedFrame(l);
      pt.LeafPosition(root, vaddr);
      pt.OnTheWay(root, vaddr);
      AccessExact(pt.tables, pt.at, pt.via, root, vaddr, pt.view[l].flags);
    }

    /** The hardware lets code do with a page what its area says: it is executable exactly when the area is, open to
        user code exactly when the area is and the tables on the way are, and writable when the area is unless its frame
        is marked copy-on-write. */
    lemma AccessOfArea(root: nat, vaddr: nat)
      requires Valid() && root in spaces && Rights(root, vaddr).In?
      ensures pt.Here(root, vaddr) in pt.view
      ensures var flags := Rights(root, vaddr).flags;
        var access := Access(pt.via, root, vaddr, pt.view[pt.Here(root, vaddr)].flags);
        && (access.nx <==> !Has(flags, EXECUTABLE)) && (access.uncached <==> Has(flags, MMIO))
        && (access.user <==> Has(flags, USER) && PathOpen(Barred(), root, vaddr))
        && (access.write ==> Has(flags, WRITABLE))
        && (Has(flags, WRITABLE) ==> access.write || CowMarked(root, vaddr))
    {
      hide PagesOk, WantOk, SpaceOk, Has, Find, Good, PageFlags, AlignDown, FrameStates.Valid, Pmm.Sound, Tree, Denotes,
           Leads, FramesOk, Access, PathOpen, BarredOf;
      var l := pt.Here(root, vaddr);
      PageOfArea(root, vaddr);
      AccessNow(root, vaddr);
      BackedPage(l);
      assert pt.pmm.Abs().frames[pt.view[l].frame] == View(pt.pmm.db[pt.view[l].frame]);
    }

    /** A page user code may store to has a leaf for user code. */
    lemma UserLeaf(root: nat, vaddr: nat)
      requires Valid() && root in spaces && MayStore(spaces[root].areas, vaddr)
      ensures pt.Here(root, vaddr) in pt.view && pt.view[pt.Here(root, vaddr)].flags.user
    {
      hide Find, PagesValid, WantOk, AlignDown, Has;
      PageOfArea(root, vaddr);
      BackedPage(pt.Here(root, vaddr));
    }

    /** A store by user code. When the hardware refuses it the fault is handled and the store tried again, and a second
        refusal is the end of it. The store takes place exactly when the area allows it, the tables let user code past,
        and a copy that is needed can be made; then exactly one byte of the storing address space changes. */
    method Store(root: nat, vaddr: nat, b: bv8) returns (r: Errno)
      requires Valid() && root in spaces && UserAddress(vaddr)
      modifies this`data, pt, pt.pmm, pt.pmm.db
      ensures Valid() && Room() >= old(Room()) - 1 && Shared() <= old(Shared()) && Barred() == old(Barred())
      ensures old(Spare()) - 1 <= Spare() <= old(Spare())
      ensures !old(SharedFrame(root, vaddr)) || old(Writable(root, vaddr)) ==> Spare() == old(Spare())
      ensures r.ENoMem? <==>
        Allowed(root, vaddr) && !old(Writable(root, vaddr)) && old(CowMarked(root, vaddr)) && old(Room()) == 0
      ensures r.EFault? <==>
        || !Allowed(root, vaddr)
        || (!PathOpen(Barred(), root, vaddr) && !(old(CowMarked(root, vaddr)) && old(Room()) == 0))
      ensures r.Ok? ==> pt.Here(root, vaddr) in old(Mem()) && |old(Mem())[pt.Here(root, vaddr)]| == 4096
      ensures Mem() == if r.Ok?
        then old(Mem())[pt.Here(root, vaddr) := old(Mem())[pt.Here(root, vaddr)][vaddr % 4096 := b]]
        else old(Mem())
    {
      hide Machine.Valid, Machine.Mem, Machine.Writable, Machine.CowMarked, Machine.Room, SharedPages, PathOpen,
           BarredOf, Has, PageFlags;
      StoreFacts(root, vaddr);
      var done, present := TryStore(root, vaddr, b);
      if done {
        return Ok;
      }
      r := PageFault(root, vaddr, true, true, false, present);
      if r.Ok? {
        StoreFacts(root, vaddr);
        done, present := TryStore(root, vaddr, b);
        if !done {
          r := PageFault(root, vaddr, true, true, false, present);
        }
      }
    }

    /** Whether a store goes through, in terms of the area, of the tables and of the copy-on-write mark. */
    lemma StoreFacts(root: nat, vaddr: nat)
      requires Valid() && root in spaces && UserAddress(vaddr)
      ensures Writable(root, vaddr) ==> Allowed(root, vaddr) && PathOpen(Barred(), root, vaddr)
      ensures Writable(root, vaddr) ==> pt.view[pt.Here(root, vaddr)].flags.write
      ensures Allowed(root, vaddr) ==> pt.Here(root, vaddr) in pt.view
      ensures Allowed(root, vaddr) && PathOpen(Barred(), root, vaddr) && !CowMarked(root, vaddr) ==>
        Writable(root, vaddr)
      ensures Allowed(root, vaddr) && pt.view[pt.Here(root, vaddr)].flags.write && PathOpen(Barred(), root, vaddr) ==>
        Writable(root, vaddr)
    {
      hide FrameStates.Valid, Pmm.Sound, Tree, Denotes, Leads, FramesOk, PagesOk, WantOk, Machine.Mem, Find, Has, Good,
           PageFlags, AlignDown, PageTable.Valid, SpaceOk, Access, PathOpen, BarredOf;
      var l := pt.Here(root, vaddr);
      PageOfArea(root, vaddr);
      WritableExact(root, vaddr);
      if l in pt.view {
        BackedPage(l);
        assert pt.pmm.Abs().frames[pt.view[l].frame] == View(pt.pmm.db[pt.view[l].frame]);
      }
    }

    ghost function Seen(): World
      reads this`spaces, this`data, pt`view
    {
      World(spaces, Mem())
    }

    lemma FreeIsRoom()
      requires Valid()
      ensures pt.pmm.freePages == Room()
    {
    }

    lemma StoreAllowed(root: nat, vaddr: nat)
      requires Valid() && root in spaces && MayStore(spaces[root].areas, vaddr)
      ensures Allowed(root, vaddr)
    {
      hide Has, Find, PagesValid, WantOk, AlignDown;
      PageOfArea(root, vaddr);
    }

    lemma WellFormedNow()
      requires Valid()
      ensures WellFormed(Seen())
    {
      MemKeys();
    }

    /** The tables on the way to a mapped page are there. */
    lemma PathThere(root: nat, vaddr: nat)
      requires PagesValid() && UserAddress(vaddr) && pt.Here(root, vaddr) in pt.view
      ensures Covering(root, vaddr, 1) in pt.via
    {
      hide FrameStates.Valid, Pmm.Sound, Tree, FramesOk, PagesOk, Covering;
      pt.MappedFrame(pt.Here(root, vaddr));
      pt.LeafPosition(root, vaddr);
      pt.Relatives(root, vaddr);
    }

    lemma ViaInside()
      requires PagesValid()
      ensures forall q :: q in pt.via ==> q in pt.at
    {
    }

    /** Tables belong to address spaces. */
    lemma BarredOwned()
      requires Valid()
      ensures forall q :: q in Barred() ==> q.root in spaces
    {
      hide PagesOk, WantOk, SpaceOk, FrameStates.Valid, Pmm.Sound, Denotes, Leads, FramesOk;
      ViaInside();
      forall q | q in Barred() ensures q.root in spaces {
        RootPlanted(pt.tables, pt.at, pt.pos, q);
        assert pt.IsRoot(q.root);
      }
    }
  }
}
