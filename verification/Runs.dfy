/** Whole runs of the address-space calls: what the users see is what the calls mean on private memories. */
module Runs {
  import opened FrameStates
  import opened FrameAllocator
  import opened PageTables
  import opened Paging
  import opened CowPages
  import opened Vmas
  import opened AreaPages
  import opened AddressSpaces
  import opened Protection

  ghost function StockOf(m: Machine): Stock
    reads m.pt, m.pt.pmm, m.pt.pmm.db
  {
    Stock(m.Room(), m.Spare(), m.Shared(), m.Barred())
  }

  /** Every call does to the world what it ideally means, and keeps the machine valid. */
  method Perform(m: Machine, c: Call)
    requires m.Valid() && Sensible(m.spaces, c) && Cost(m.spaces, c) <= m.Room() && Harmless(m.Shared(), c)
    requires Reachable(m.Barred(), c)
    modifies m, m.pt, m.pt.pmm, m.pt.pmm.db
    ensures m.Valid() && Ideal(old(m.Seen()), c, m.Seen()) && m.Room() >= old(m.Room()) - Cost(old(m.spaces), c)
    ensures NewlyShared(old(m.Shared()), m.Shared(), Family(old(m.Seen()), c, m.Seen()))
    ensures NewlyBarred(old(m.Barred()), m.Barred(), Sealed(old(m.Seen()), c, m.Seen()))
    ensures SpareStep(old(m.spaces), old(StockOf(m)), c, StockOf(m))
  {
    hide Machine.Mem, Machine.Shared, Pages, Gap, Insert, Fill, ForkMem, Surviving, MemOfOthers, Has, AlignUp,
         AlignDown, PageCount, Vmas.Unmap, Vmas.Find, Vmas.Protect, Twins, Harmless, Machine.Room, Machine.Spare,
         NewlyBarred, BarredOf, PathOpen, ViaGrown, Trimmed, OfOthers, TablesOf, AllUser, ForkedWorld, Machine.Valid;
    NewlyBarredNone(m.Barred(), {});
    match c
    case DoCreate =>
      var root := m.Create();
      assert Created(old(m.Seen()), m.Seen(), root.pfn);
    case DoMapAnonymous(r, size, flags) =>
      var base := m.MapAnonymous(r, size, flags);
      GrownBarred(old(m.pt.via), m.pt.via, r, Has(flags, USER));
    case DoFork(r) =>
      PerformFork(m, r);
    case DoStore(r, vaddr, b) =>
      m.StoreAllowed(r, vaddr);
      var e := m.Store(r, vaddr, b);
    case DoUnmapRange(r, addr, size) =>
      m.Unmap(r, addr, size);
      TrimmedBarred(old(m.pt.at), old(m.pt.via), m.pt.at, m.pt.via, r);
      FewerBarred(old(m.Barred()), m.Barred(), {});
    case DoProtect(r, addr, size, flags) =>
      SafeProtect(m, r, addr, size, flags);
    case DoDestroy(r) =>
      m.Destroy(r);
      FewerBarred(old(m.Barred()), m.Barred(), {});
  }

  method PerformFork(m: Machine, r: nat)
    requires m.Valid() && r in m.spaces && Cost(m.spaces, DoFork(r)) <= m.Room()
    modifies m`want, m`spaces, m.pt, m.pt.pmm, m.pt.pmm.db
    ensures m.Valid() && Ideal(old(m.Seen()), DoFork(r), m.Seen())
    ensures m.Room() >= old(m.Room()) - Cost(old(m.spaces), DoFork(r)) && m.Spare() == old(m.Spare())
    ensures NewlyShared(old(m.Shared()), m.Shared(), Family(old(m.Seen()), DoFork(r), m.Seen()))
    ensures NewlyBarred(old(m.Barred()), m.Barred(), Sealed(old(m.Seen()), DoFork(r), m.Seen()))
  {
    hide Machine.Valid, Machine.Mem, Machine.Shared, Machine.Room, Machine.Spare, ForkMem, PageCount, Twins,
         NewlyBarred, BarredOf, AllUser;
    var child := m.Fork(r);
    assert ForkedWorld(old(m.Seen()), m.Seen(), r, child);
    assert child in Family(old(m.Seen()), DoFork(r), m.Seen());
    WiderBarred(old(m.Barred()), m.Barred(), BarredBy(AllUser(old(m.spaces)[r].areas), child),
                Sealed(old(m.Seen()), DoFork(r), m.Seen()));
  }

  /** A change of protection that gives no write access to shared pages keeps spaces private. */
  method SafeProtect(m: Machine, root: nat, addr: nat, size: nat, flags: bv32)
    requires m.Valid() && root in m.spaces && size > 0 && !Has(flags, SHARED)
    requires Harmless(m.Shared(), DoProtect(root, addr, size, flags))
    modifies m`want, m`spaces, m.pt, m.pt.pmm, m.pt.pmm.db
    ensures m.Valid() && m.Mem() == old(m.Mem()) && m.Room() >= old(m.Room()) && m.Shared() == old(m.Shared())
    ensures m.Spare() == old(m.Spare())
    ensures m.spaces == ProtectedSpaces(old(m.spaces), root, addr, size, flags)
    ensures NewlyBarred(old(m.Barred()), m.Barred(), BarredBy(Has(flags, USER), root))
  {
    hide LoosePages, WantOk, SpaceOk, Machine.Valid, Machine.Mem, Machine.Room, Machine.Shared, Has, AlignUp, AlignDown,
         Vmas.Protect, SameRecords, Isolated, Alone, ProtectedView, Reaches;
    ValidExact(m);
    var _, _ := Protection.Protect(m, root, addr, size, flags);
  }

  // ---- deciding whether to make a call

  lemma UserPage(m: Machine, l: Loc)
    requires m.Valid() && l in m.pt.view
    ensures l.page * 0x1000 < USER_TOP
  {
    assert PageWanted(m.spaces, m.want, l);
    var areas := m.spaces[l.root].areas;
    FlagsMapped(areas, l.page * 0x1000);
    var i :| 0 <= i < |areas| && areas[i].Contains(l.page * 0x1000);
    assert Backed(areas[i]);
  }

  /** One page: whether its frame is marked and counted as shared. */
  method PageShared(m: Machine, root: nat, addr: nat) returns (shared: bool)
    requires m.Valid() && root in m.spaces
    modifies m.pt`tables, m.pt`at, m.pt`pos, m.pt`via, m.pt.pmm, m.pt.pmm.db
    ensures m.Valid() && unchanged(m.pt) && m.pt.pmm.Abs() == old(m.pt.pmm.Abs())
    ensures shared <==> m.pt.Here(root, addr) in m.Shared()
  {
    hide FrameStates.Valid, Pmm.Sound, Tree, Denotes, Leads, FramesOk, PagesOk, WantOk, SpaceOk;
    ghost var l := m.pt.Here(root, addr);
    if addr >= USER_TOP {
      if l in m.pt.view { UserPage(m, l); }
      return false;
    }
    if l in m.pt.view { m.BackedPage(l); }
    var frame := m.pt.GetPaddr(root, addr);
    if frame == 0 {
      return false;
    }
    m.BackedPage(l);
    assert m.pt.pmm.Abs().frames[frame] == View(m.pt.pmm.db[frame]);
    shared := m.pt.pmm.db[frame].flags.cow && m.pt.pmm.db[frame].u2.count >= 4;
  }

  /** A whole range. */
  method RangeShared(m: Machine, root: nat, base: nat, end: nat) returns (shared: bool)
    requires m.Valid() && root in m.spaces && base % PAGE == 0 && end % PAGE == 0
    modifies m.pt`tables, m.pt`at, m.pt`pos, m.pt`via, m.pt.pmm, m.pt.pmm.db
    ensures m.Valid() && unchanged(m.pt) && m.pt.pmm.Abs() == old(m.pt.pmm.Abs())
    ensures shared <==> !Unmarked(m, root, base, end)
  {
    hide Machine.Valid, SharedPages, Pmm.Abs;
    var addr := base;
    while addr < end
      invariant m.Valid() && unchanged(m.pt) && m.pt.pmm.Abs() == old(m.pt.pmm.Abs())
      invariant base <= addr && addr % PAGE == 0 && Unmarked(m, root, base, addr)
    {
      shared := PageShared(m, root, addr);
      if shared {
        assert InRange(m.pt.Here(root, addr), root, base, end);
        return;
      }
      ghost var was := addr;
      addr := addr + PAGE;
      forall l | l in m.Shared() ensures !InRange(l, root, base, addr) { OnePageMore(l, root, base, was); }
    }
    shared := false;
  }

  lemma OnePageMore(l: Loc, root: nat, base: nat, addr: nat)
    requires addr % PAGE == 0 && base <= addr
    ensures InRange(l, root, base, addr + PAGE) <==> InRange(l, root, base, addr) || l == Loc(root, addr / 0x1000)
  {
  }

  /** Whether user code gets past the tables on the way to a page it may store to: the walk tells. */
  method PageReachable(m: Machine, root: nat, vaddr: nat) returns (open: bool)
    requires m.Valid() && root in m.spaces && UserAddress(vaddr) && MayStore(m.spaces[root].areas, vaddr)
    ensures open <==> PathOpen(m.Barred(), root, vaddr)
  {
    hide FrameStates.Valid, Pmm.Sound, Tree, Denotes, Leads, FramesOk, PagesOk, WantOk, SpaceOk, Access, PathOpen, Has,
         BarredOf, Covering;
    m.UserLeaf(root, vaddr);
    m.AccessNow(root, vaddr);
    var e := m.pt.Translate(root, vaddr);
    open := e.flags.user;
  }

  method CanMake(m: Machine, c: Call) returns (go: bool)
    requires m.Valid()
    modifies m.pt`tables, m.pt`at, m.pt`pos, m.pt`via, m.pt.pmm, m.pt.pmm.db
    ensures m.Valid() && unchanged(m.pt) && m.pt.pmm.Abs() == old(m.pt.pmm.Abs())
    ensures go <==>
      Sensible(m.spaces, c) && Cost(m.spaces, c) <= m.Room() && Harmless(m.Shared(), c) && Reachable(m.Barred(), c)
  {
    hide Machine.Valid, SharedPages, Cost, Pmm.Abs, Has;
    m.FreeIsRoom();
    if !Sensible(m.spaces, c) || Cost(m.spaces, c) > m.pt.pmm.freePages {
      return false;
    }
    go := true;
    if c.DoProtect? && Has(c.flags, WRITABLE) {
      var shared := RangeShared(m, c.root, AlignDown(c.addr), AlignDown(c.addr) + AlignUp(c.size));
      go := !shared;
    }
    if c.DoStore? {
      go := PageReachable(m, c.root, c.vaddr);
    }
  }

  /** Any sequence of calls: the world the users see goes through exactly the steps the calls ideally mean, and a call
      is passed over only when it makes no sense, memory is short for it, or it would let a shared page be written. */
  method Run(m: Machine, calls: seq<Call>)
    returns (ghost trace: seq<World>, ghost stock: seq<Stock>, ghost done: seq<bool>)
    requires m.Valid()
    modifies m, m.pt, m.pt.pmm, m.pt.pmm.db
    ensures m.Valid() && RunSteps(trace, stock, calls, done)
    ensures trace[0] == old(m.Seen()) && stock[0] == old(StockOf(m))
    ensures trace[|calls|] == m.Seen() && stock[|calls|] == StockOf(m)
  {
    hide Machine.Valid, Machine.Mem, Machine.Room, Machine.Shared, Sensible, Ideal, WellFormed, Cost, Harmless,
         NewlyShared, Pmm.Abs;
    m.WellFormedNow();
    m.BarredOwned();
    trace, stock, done := [m.Seen()], [StockOf(m)], [];
    var i := 0;
    assert calls[..0] == [];
    while i < |calls|
      invariant 0 <= i <= |calls| && m.Valid() && RunSteps(trace, stock, calls[..i], done)
      invariant trace[0] == old(m.Seen()) && trace[i] == m.Seen()
      invariant stock[0] == old(StockOf(m)) && stock[i] == StockOf(m)
    {
      var go := TryCall(m, calls[i]);
      m.WellFormedNow();
      m.BarredOwned();
      RunStepsMore(trace, stock, calls, i, done, go, m.Seen(), StockOf(m));
      trace, stock, done := trace + [m.Seen()], stock + [StockOf(m)], done + [go];
      i := i + 1;
    }
    assert calls[..i] == calls;
  }

  /** Makes a call if it can be made. */
  method TryCall(m: Machine, c: Call) returns (go: bool)
    requires m.Valid()
    modifies m, m.pt, m.pt.pmm, m.pt.pmm.db
    ensures m.Valid() && StepOk(old(m.Seen()), old(StockOf(m)), c, go, m.Seen(), StockOf(m))
  {
    hide Machine.Valid, Machine.Mem, Sensible, Ideal, Cost, Harmless, NewlyShared, Pmm.Abs, SharedPages;
    go := CanMake(m, c);
    assert m.Seen() == old(m.Seen()) && StockOf(m) == old(StockOf(m));
    if go {
      Perform(m, c);
    }
  }

  lemma RunStepsMore(trace: seq<World>, stock: seq<Stock>, calls: seq<Call>, i: nat, done: seq<bool>, go: bool,
                     w: World, k: Stock)
    requires i < |calls| && RunSteps(trace, stock, calls[..i], done)
    requires StepOk(trace[i], stock[i], calls[i], go, w, k) && WellFormed(w) && BarredInside(w, k)
    ensures RunSteps(trace + [w], stock + [k], calls[..i+1], done + [go])
  {
    hide StepOk, WellFormed, BarredInside;
    var trace', stock', done' := trace + [w], stock + [k], done + [go];
    forall j | 0 <= j < i + 1
      ensures StepOk(trace'[j], stock'[j], calls[..i+1][j], done'[j], trace'[j+1], stock'[j+1])
    {
      if j < i { assert StepOk(trace[j], stock[j], calls[..i][j], done[j], trace[j+1], stock[j+1]); }
    }
  }
}
