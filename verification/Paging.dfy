/** kernel/src/mm/paging.c: walking, filling and reclaiming four-level page tables. */
module Paging {
  import opened FrameStates
  import opened FrameAllocator
  import opened PageTables

  datatype Option<+T> = None | Some(value: T)

  class PageTable {
    const pmm: Pmm
    /** The contents of the frames in use as tables. */
    var tables: Tables
    ghost var at: map<Pos, nat>
    ghost var pos: map<nat, Pos>
    /** The partial map from pages to frames that the tables of all roots denote. */
    ghost var view: map<Loc, Leaf>
    /** The flags of the entries that lead to the tables. */
    ghost var via: map<Pos, PFlags>

    ghost predicate Valid()
      reads this, pmm, pmm.db
    {
      && pmm.Valid()
      && Tree(tables, at, pos)
      && Denotes(tables, at, view)
      && Leads(tables, at, via)
      && FramesOk(pmm.Abs(), tables.Keys, view)
    }

    /** The frames that are free or hold tables. */
    ghost function Spare(): nat
      reads this, pmm, pmm.db
    {
      |pmm.Abs().free| + |tables.Keys|
    }

    ghost function Barred(): set<Pos>
      reads this`via
    {
      BarredOf(via)
    }

    constructor (pmm: Pmm)
      requires pmm.Valid()
      ensures Valid() && this.pmm == pmm && tables == map[] && view == map[]
    {
      this.pmm := pmm;
      tables, at, pos, view, via := map[], map[], map[], map[], map[];
    }

    /** Hang the zeroed frame `f` below entry `i` of the table at `q`. */
    method Hang(table: nat, i: nat, f: nat, flags: PFlags, ghost q: Pos)
      requires Tree(tables, at, pos) && Denotes(tables, at, view) && Leads(tables, at, via) && ForTable(flags)
      requires q in at && at[q] == table && q.level > 1 && i < ENTRIES && tables[table][i].Absent?
      requires f !in tables && Child(q, i).prefix < Limit(q.level - 1)
      modifies this`tables, this`at, this`pos, this`via
      ensures Tree(tables, at, pos) && Denotes(tables, at, view) && Leads(tables, at, via)
      ensures at == old(at)[Child(q, i) := f] && tables.Keys == old(tables.Keys) + {f}
      ensures ViaGrown(old(via), via, q.root, flags)
      ensures old(NoVacantBut(tables, at, q)) ==> NoVacantBut(tables, at, Child(q, i))
    {
      hide Tree, Denotes, Leads, ViaGrown, NoVacantBut, Hung;
      HangTable(tables, at, pos, view, via, q, i, f, flags);
      Point(table, i, f, flags);
      at, pos, via := at[Child(q, i) := f], pos[f := Child(q, i)], via[Child(q, i) := flags];
    }

    /** Zero the frame `f` and make an entry point to it. */
    method Point(table: nat, i: nat, f: nat, flags: PFlags)
      requires table in tables && f != table && i < |tables[table]|
      modifies this`tables
      ensures tables == Hung(old(tables), table, i, f, EMPTY, flags)
    {
      tables := tables[f := EMPTY];
      tables := tables[table := tables[table][i := Present(f, flags)]];
    }

    /** The flags map_page gives the entries that lead to tables. */
    static predicate ForTable(flags: PFlags) {
      flags == PFlags(true, flags.user, false, false)
    }

    /** The tables grew by one: the next free frame hangs below entry `i` of the table at `q`. */
    ghost predicate Grown(s: State, at0: map<Pos, nat>, tables0: set<nat>, q: Pos, i: nat, f: nat)
      requires q.level > 0
      reads this, pmm, pmm.db
    {
      && s.free != [] && f == s.free[0] < |s.frames|
      && pmm.Abs() == Alloc(s)
      && at == at0[Child(q, i) := f]
      && tables.Keys == tables0 + {f}
    }

    /** _alloc_pte, and the entry that points to the new table. */
    method NewTable(table: nat, i: nat, flags: PFlags, ghost q: Pos) returns (next: Link)
      requires Valid() && q in at && at[q] == table && q.level > 1 && i < ENTRIES
      requires Child(q, i).prefix < Limit(q.level - 1) && tables[table][i].Absent? && ForTable(flags)
      modifies this`tables, this`at, this`pos, this`via, pmm, pmm.db
      ensures Valid()
      ensures next.Null? <==> old(pmm.Abs()).free == []
      ensures next.Null? ==> unchanged(this) && pmm.Abs() == old(pmm.Abs())
      ensures next.To? ==> Grown(old(pmm.Abs()), old(at), old(tables.Keys), q, i, next.pfn)
      ensures ViaGrown(old(via), via, q.root, flags)
      ensures next.To? && old(NoVacantBut(tables, at, q)) ==> NoVacantBut(tables, at, Child(q, i))
    {
      hide FrameStates.Valid, Pmm.Sound, Pmm.Abs, Tree, Denotes, Leads, FramesOk, NoVacantBut;
      ghost var s := pmm.Abs();
      next := pmm.AllocPage();
      if next.To? {
        AllocTableFrame(s, tables.Keys, view);
        Hang(table, i, next.pfn, flags, q);
      }
    }

    /** _pte_next: follow an entry, hanging a zeroed table below it if asked to. */
    method PteNext(table: nat, i: nat, create: Option<PFlags>, ghost q: Pos) returns (next: Link)
      requires Valid() && q in at && at[q] == table && q.level > 1 && i < ENTRIES
      requires Child(q, i).prefix < Limit(q.level - 1) && (create.Some? ==> ForTable(create.value))
      modifies this`tables, this`at, this`pos, this`via, pmm, pmm.db
      ensures Valid()
      ensures next == if Child(q, i) in at then To(at[Child(q, i)]) else Null
      ensures (unchanged(this) && pmm.Abs() == old(pmm.Abs()))
        || (create.Some? && next.To? && Child(q, i) !in old(at)
            && Grown(old(pmm.Abs()), old(at), old(tables.Keys), q, i, next.pfn))
      ensures create.Some? && next.Null? ==> pmm.Abs().free == []
      ensures create.Some? ==> ViaGrown(old(via), via, q.root, create.value)
      ensures old(NoVacantBut(tables, at, q)) && next.To? ==> NoVacantBut(tables, at, Child(q, i))
    {
      var entry := tables[table][i];
      assert Entry(tables, at, q, i);
      hide FrameStates.Valid, Pmm.Sound, Pmm.Abs, Tree, Denotes, Leads, FramesOk, NoVacantBut;
      if entry.Present? {
        if NoVacantBut(tables, at, q) { FollowVacancy(tables, at, pos, q, i); }
        next := To(entry.frame);
      } else if create.None? {
        next := Null;
      } else {
        next := NewTable(table, i, create.value, q);
      }
    }

    /** Since state `s` the tables took the next `n` free frames. */
    ghost predicate GrewBy(s: State, tables0: set<nat>, n: nat)
      reads this, pmm, pmm.db
    {
      && FrameStates.Valid(s) && n <= |s.free|
      && pmm.Abs() == AllocN(s, n)
      && tables.Keys == tables0 + (set f | f in s.free[..n])
    }

    lemma GrewByOneMore(s: State, tables0: set<nat>, n: nat, f: nat, tables1: set<nat>)
      requires FrameStates.Valid(s) && n < |s.free| && f == AllocN(s, n).free[0] < |s.frames|
      requires tables1 == tables0 + (set f | f in s.free[..n])
      requires pmm.Abs() == Alloc(AllocN(s, n)) && tables.Keys == tables1 + {f}
      ensures GrewBy(s, tables0, n + 1)
    {
      AllocNStep(s, n);
      assert s.free[..n+1] == s.free[..n] + [f];
      hide FrameStates.Valid, Pmm.Abs, Alloc, AllocN;
    }

    /** One level of the walk, keeping track of the tables it hangs. */
    method Descend(table: nat, vaddr: nat, level: nat, create: Option<PFlags>,
                   ghost root: nat, ghost s: State, ghost tables0: set<nat>, ghost n: nat)
      returns (next: Link, ghost m: nat)
      requires Valid() && 1 < level <= 4 && UserAddress(vaddr)
      requires Covering(root, vaddr, level) in at && at[Covering(root, vaddr, level)] == table
      requires GrewBy(s, tables0, n) && (create.Some? ==> ForTable(create.value))
      modifies this`tables, this`at, this`pos, this`via, pmm, pmm.db
      ensures Valid() && GrewBy(s, tables0, m)
      ensures next == if Covering(root, vaddr, level - 1) in at then To(at[Covering(root, vaddr, level - 1)]) else Null
      ensures m == if next.To? && Covering(root, vaddr, level - 1) !in old(at) then n + 1 else n
      ensures SameRoots(old(at), at) && (m == n ==> via == old(via))
      ensures at == if next.To? then old(at)[Covering(root, vaddr, level - 1) := next.pfn] else old(at)
      ensures OfOthers(at, root) == old(OfOthers(at, root))
      ensures create.None? ==> m == n && unchanged(this) && pmm.Abs() == old(pmm.Abs())
      ensures create.Some? && next.Null? ==> pmm.Abs().free == []
      ensures create.Some? ==> ViaGrown(old(via), via, root, create.value)
      ensures old(NoVacantBut(tables, at, Covering(root, vaddr, level))) && next.To? ==>
        NoVacantBut(tables, at, Covering(root, vaddr, level - 1))
    {
      hide FrameStates.Valid, Pmm.Sound, Pmm.Abs, Tree, Denotes, Leads, FramesOk, NoVacantBut, Alloc;
      CoveringStep(root, vaddr, level);
      CoveringStep(root, vaddr, level - 1);
      ghost var q, i := Covering(root, vaddr, level), Index(vaddr, level);
      assert Child(q, i) == Covering(root, vaddr, level - 1);
      assert Child(q, i).root == root;
      hide Index, Covering, Limit, UserAddress, OfOthers;
      next := PteNext(table, Index(vaddr, level), create, q);
      m := n;
      if next.To? { OthersKept(old(at), Child(q, i), next.pfn); }
      if next.To? && Child(q, i) !in old(at) {
        GrewByOneMore(s, tables0, n, next.pfn, old(tables.Keys));
        m := n + 1;
      }
    }

    ghost predicate IsRoot(root: nat)
      reads this
    {
      Pos(root, 4, 0) in at
    }

    /** _leaf_entry: the level-1 table that covers an address. It takes at most three frames and
        fails only when memory ran out, or when it may not create tables and there is none. */
    method LeafTable(root: nat, vaddr: nat, create: Option<PFlags>) returns (table: Link, ghost n: nat)
      requires Valid() && IsRoot(root) && UserAddress(vaddr) && (create.Some? ==> ForTable(create.value))
      modifies this`tables, this`at, this`pos, this`via, pmm, pmm.db
      ensures Valid() && GrewBy(old(pmm.Abs()), old(tables.Keys), n)
      ensures create.Some? ==> ViaGrown(old(via), via, root, create.value)
      ensures n <= 3 && (table.Null? ==> n <= 2)
      ensures table == if Covering(root, vaddr, 1) in at then To(at[Covering(root, vaddr, 1)]) else Null
      ensures create.None? ==> n == 0 && unchanged(this) && pmm.Abs() == old(pmm.Abs())
      ensures create.Some? ==> (table.To? <==> old(Missing(at, root, vaddr)) <= |old(pmm.Abs()).free|)
      ensures create.Some? && table.To? ==> n == old(Missing(at, root, vaddr))
      ensures create.Some? ==> n <= old(Missing(at, root, vaddr))
      ensures (forall q :: q in old(at) ==> q in at) && OfOthers(at, root) == old(OfOthers(at, root))
      ensures SameRoots(old(at), at) && (n == 0 ==> via == old(via))
      ensures table.To? && old(NoVacant(tables, at)) ==> NoVacantBut(tables, at, Covering(root, vaddr, 1))
    {
      hide FrameStates.Valid, Pmm.Sound, Pmm.Abs, Tree, Denotes, Leads, FramesOk, NoVacantBut, AllocN, Index,
           UserAddress, Covering, GrewBy, OfOthers;
      ghost var s, tables0 := pmm.Abs(), tables.Keys;
      AtRoot(root, vaddr);
      Ancestors(root, vaddr);
      Relatives(root, vaddr);
      table, n := Descend(root, vaddr, 4, create, root, s, tables0, 0);
      if table.To? {
        ghost var via1 := via;
        table, n := Lower(table.pfn, vaddr, create, root, s, tables0, n);
        if create.Some? { ViaGrownTwice(old(via), via1, via, root, create.value); }
      }
      Ancestors(root, vaddr);
      OutOfFrames(s, tables0, n);
    }

    lemma OutOfFrames(s: State, tables0: set<nat>, n: nat)
      requires GrewBy(s, tables0, n)
      ensures n <= |s.free| && (pmm.Abs().free == [] ==> |s.free| == n)
    {
    }

    lemma AtRoot(root: nat, vaddr: nat)
      requires Valid() && IsRoot(root) && UserAddress(vaddr)
      ensures Covering(root, vaddr, 4) in at && at[Covering(root, vaddr, 4)] == root
      ensures GrewBy(pmm.Abs(), tables.Keys, 0)
      ensures NoVacant(tables, at) <==> NoVacantBut(tables, at, Covering(root, vaddr, 4))
      ensures Covering(root, vaddr, 3) !in at ==> Covering(root, vaddr, 1) !in at
    {
      hide FrameStates.Valid, Pmm.Sound, Denotes, Leads, FramesOk, GrewBy;
      GrewNone();
      Ancestors(root, vaddr);
      CoveringStep(root, vaddr, 4);
    }

    lemma GrewNone()
      requires pmm.Valid()
      ensures GrewBy(pmm.Abs(), tables.Keys, 0)
    {
      assert AllocN(pmm.Abs(), 0).frames == pmm.Abs().frames;
    }

    /** The last two levels of the walk. */
    method Lower(table0: nat, vaddr: nat, create: Option<PFlags>,
                 ghost root: nat, ghost s: State, ghost tables0: set<nat>, ghost n: nat)
      returns (table: Link, ghost m: nat)
      requires Valid() && UserAddress(vaddr)
      requires Covering(root, vaddr, 3) in at && at[Covering(root, vaddr, 3)] == table0
      requires GrewBy(s, tables0, n) && (create.Some? ==> ForTable(create.value))
      modifies this`tables, this`at, this`pos, this`via, pmm, pmm.db
      ensures Valid() && GrewBy(s, tables0, m)
      ensures n <= m <= n + 2 && (table.Null? ==> m <= n + 1)
      ensures table == if Covering(root, vaddr, 1) in at then To(at[Covering(root, vaddr, 1)]) else Null
      ensures create.None? ==> m == n && unchanged(this) && pmm.Abs() == old(pmm.Abs())
      ensures create.Some? && table.Null? ==> pmm.Abs().free == []
      ensures create.Some? ==> ViaGrown(old(via), via, root, create.value)
      ensures SameRoots(old(at), at) && (m == n ==> via == old(via))
      ensures var missing := old(Absence(at, Covering(root, vaddr, 2)) + Absence(at, Covering(root, vaddr, 1)));
        create.Some? ==> if table.To? then m == n + missing else m < n + missing
      ensures (forall q :: q in old(at) ==> q in at) && OfOthers(at, root) == old(OfOthers(at, root))
      ensures table.To? && old(NoVacantBut(tables, at, Covering(root, vaddr, 3))) ==>
        NoVacantBut(tables, at, Covering(root, vaddr, 1))
    {
      hide FrameStates.Valid, Pmm.Sound, Pmm.Abs, Tree, Denotes, Leads, FramesOk, NoVacantBut, AllocN, Index,
           UserAddress, Covering, GrewBy, OfOthers;
      Ancestors(root, vaddr);
      Relatives(root, vaddr);
      table, m := Descend(table0, vaddr, 3, create, root, s, tables0, n);
      if table.To? {
        ghost var via1 := via;
        table, m := Descend(table.pfn, vaddr, 2, create, root, s, tables0, m);
        if create.Some? { ViaGrownTwice(old(via), via1, via, root, create.value); }
      }
      Ancestors(root, vaddr);
    }

    /** Where a table is missing, the tables below it are missing too. */
    lemma Ancestors(root: nat, vaddr: nat)
      requires Tree(tables, at, pos) && UserAddress(vaddr)
      ensures Covering(root, vaddr, 1) in at ==> Covering(root, vaddr, 2) in at
      ensures Covering(root, vaddr, 2) in at ==> Covering(root, vaddr, 3) in at
    {
      CoveringStep(root, vaddr, 1);
      CoveringStep(root, vaddr, 2);
    }

    ghost function Here(root: nat, vaddr: nat): Loc {
      Loc(root, vaddr / 0x1000)
    }

    lemma LeafPosition(root: nat, vaddr: nat)
      ensures LeafPos(Here(root, vaddr)) == Covering(root, vaddr, 1)
      ensures Here(root, vaddr).page % 512 == Index(vaddr, 1)
    {
    }

    /** Reading the level-1 entry of an address is reading the partial map. */
    method ReadEntry(table: nat, root: nat, vaddr: nat) returns (e: Pte)
      requires Valid() && Covering(root, vaddr, 1) in at && at[Covering(root, vaddr, 1)] == table
      ensures e == if Here(root, vaddr) in view
                   then Present(view[Here(root, vaddr)].frame, view[Here(root, vaddr)].flags) else Absent
    {
      LeafPosition(root, vaddr);
      assert LeafEntry(tables, at, view, Here(root, vaddr));
      e := tables[table][Index(vaddr, 1)];
    }

    method WriteEntry(table: nat, root: nat, vaddr: nat, e: Pte)
      requires Tree(tables, at, pos) && Denotes(tables, at, view) && Leads(tables, at, via)
      requires Covering(root, vaddr, 1) in at && at[Covering(root, vaddr, 1)] == table
      modifies this`tables, this`view
      ensures Tree(tables, at, pos) && Denotes(tables, at, view) && Leads(tables, at, via)
      ensures view == SetView(old(view), Here(root, vaddr), e) && tables.Keys == old(tables.Keys)
      ensures old(NoVacantBut(tables, at, Covering(root, vaddr, 1))) ==>
        && NoVacantBut(tables, at, Covering(root, vaddr, 1))
        && (e.Present? ==> NoVacant(tables, at))
    {
      LeafPosition(root, vaddr);
      AtTable(tables, at, pos, Covering(root, vaddr, 1));
      hide Tree, Denotes, Leads, Covering, Index;
      SetLeaf(tables, at, pos, view, Here(root, vaddr), e);
      SetLeafLeads(tables, at, pos, via, Here(root, vaddr), e);
      ghost var tables0 := tables;
      tables := tables[table := tables[table][Index(vaddr, 1) := e]];
      view := SetView(view, Here(root, vaddr), e);
      if NoVacantBut(tables0, at, Covering(root, vaddr, 1)) {
        OthersStillFull(tables0, tables, Covering(root, vaddr, 1));
      }
      if e.Present? {
        assert tables[table][Index(vaddr, 1)].Present?;
      }
    }

    lemma OthersStillFull(tables0: Tables, tables1: Tables, q: Pos)
      requires Tree(tables0, at, pos) && Tree(tables1, at, pos) && q in at
      requires forall f :: f in tables0 && f != at[q] ==> tables1[f] == tables0[f]
      requires NoVacantBut(tables0, at, q)
      ensures NoVacantBut(tables1, at, q)
    {
    }

    lemma MappedFrame(l: Loc)
      requires Valid() && l in view
      ensures 0 < view[l].frame < pmm.db.Length && view[l].frame !in tables && pmm.db[view[l].frame].flags.alloc
      ensures LeafPos(l) in at
    {
      hide Tree, LeafEntry, Mappers;
      assert MappedOk(pmm.Abs(), tables.Keys, view, view[l].frame);
    }

    /** get_paddr: the frame an address translates to, 0 when there is none. It changes nothing. */
    method GetPaddr(root: nat, vaddr: nat) returns (frame: nat)
      requires Valid() && IsRoot(root) && UserAddress(vaddr)
      modifies this`tables, this`at, this`pos, this`via, pmm, pmm.db
      ensures Valid() && unchanged(this) && pmm.Abs() == old(pmm.Abs())
      ensures Here(root, vaddr) in view ==> frame == view[Here(root, vaddr)].frame && frame != 0
      ensures Here(root, vaddr) !in view ==> frame == 0
    {
      hide FrameStates.Valid, Pmm.Sound, Pmm.Abs, Tree, Denotes, Leads, FramesOk, NoVacantBut, GrewBy, Covering, Index;
      LeafPosition(root, vaddr);
      ghost var l := Here(root, vaddr);
      if l in view { MappedFrame(l); }
      var table, _ := LeafTable(root, vaddr, None);
      frame := 0;
      if table.To? {
        var e := ReadEntry(table.pfn, root, vaddr);
        if e.Present? {
          frame := e.frame;
        }
      }
    }

    /** The hardware's walk: the frame an address translates to, with the access that all four entries grant. */
    method Translate(root: nat, vaddr: nat) returns (e: Pte)
      requires Valid() && IsRoot(root) && UserAddress(vaddr)
      ensures var l := Here(root, vaddr);
        e == if l in view then Present(view[l].frame, Access(via, root, vaddr, view[l].flags)) else Absent
    {
      hide FrameStates.Valid, Pmm.Sound, Pmm.Abs, Denotes, Leads, FramesOk, NoVacantBut, GrewBy, Covering, Index,
           UserAddress;
      AtRoot(root, vaddr);
      var table, access, level := root, PFlags(true, true, false, false), 4;
      while level > 1
        invariant 1 <= level <= 4 && Covering(root, vaddr, level) in at && at[Covering(root, vaddr, level)] == table
        invariant access == Granted(via, root, vaddr, level)
      {
        WalkStep(root, vaddr, level);
        var entry := tables[table][Index(vaddr, level)];
        if entry.Absent? {
          return Absent;
        }
        table, access, level := entry.frame, Both(access, entry.flags), level - 1;
      }
      e := ReadEntry(table, root, vaddr);
      if e.Present? {
        e := Present(e.frame, Both(access, e.flags));
      }
    }

    /** One entry of the walk: it leads to the next covering table with the flags `via` has for it, or nothing is
        mapped. */
    lemma WalkStep(root: nat, vaddr: nat, level: nat)
      requires Valid() && 1 < level <= 4 && UserAddress(vaddr) && Covering(root, vaddr, level) in at
      ensures at[Covering(root, vaddr, level)] in tables
      ensures |tables[at[Covering(root, vaddr, level)]]| == ENTRIES
      ensures var entry, c := tables[at[Covering(root, vaddr, level)]][Index(vaddr, level)],
                              Covering(root, vaddr, level - 1);
        if entry.Present? then c in at && at[c] == entry.frame && c in via && via[c] == entry.flags
        else Here(root, vaddr) !in view
    {
      hide PageTable.Valid, Covering, Index, UserAddress;
      var q, i := Covering(root, vaddr, level), Index(vaddr, level);
      CoveringLevel(root, vaddr, level);
      CoveringStep(root, vaddr, level);
      EntryAt(q, i);
      if tables[at[q]][i].Absent? { NothingBeyond(root, vaddr, level - 1); }
    }

    lemma CoveringLevel(root: nat, vaddr: nat, level: nat)
      requires 1 <= level <= 4
      ensures Covering(root, vaddr, level).level == level
    {
    }

    lemma EntryAt(q: Pos, i: nat)
      requires Valid() && q in at && q.level > 1 && i < ENTRIES
      ensures at[q] in tables && |tables[at[q]]| == ENTRIES
      ensures var entry, c := tables[at[q]][i], Child(q, i);
        if entry.Present? then c in at && at[c] == entry.frame && c in via && via[c] == entry.flags else c !in at
    {
      hide FrameStates.Valid, Pmm.Sound, Pmm.Abs, FramesOk;
      assert Entry(tables, at, q, i) && Led(tables, at, via, q, i);
    }

    /** Where a table on the way is missing nothing is mapped. */
    lemma NothingBeyond(root: nat, vaddr: nat, level: nat)
      requires Valid() && 1 <= level <= 3 && UserAddress(vaddr) && Covering(root, vaddr, level) !in at
      ensures Here(root, vaddr) !in view
    {
      hide FrameStates.Valid, Pmm.Sound, Pmm.Abs, Denotes, Leads, FramesOk;
      Ancestors(root, vaddr);
      LeafPosition(root, vaddr);
      hide Covering, Tree;
      if Here(root, vaddr) in view { MappedFrame(Here(root, vaddr)); }
    }

    /** map_page. It fails only when memory runs out while it hangs tables; otherwise the translation
        of exactly one page changes, and everybody keeps the references they had. */
    method MapPage(root: nat, vaddr: nat, frame: nat, flags: PFlags) returns (ok: bool, ghost n: nat)
      requires Valid() && IsRoot(root) && UserAddress(vaddr)
      requires Mappable(pmm.Abs(), tables.Keys, view, Here(root, vaddr), frame)
      modifies this, pmm, pmm.db
      ensures Valid() && (forall q :: q in old(at) ==> q in at) && OfOthers(at, root) == old(OfOthers(at, root))
      ensures ok <==> old(Missing(at, root, vaddr)) <= |old(pmm.Abs()).free|
      ensures old(Missing(at, root, vaddr)) <= 3
        && (Here(root, vaddr) in old(view) ==> old(Missing(at, root, vaddr)) == 0)
      ensures ok ==> n == old(Missing(at, root, vaddr))
      ensures view == if ok then old(view)[Here(root, vaddr) := Leaf(frame, flags)] else old(view)
      ensures n <= 3 && n <= |old(pmm.Abs()).free| && (Here(root, vaddr) in old(view) ==> n == 0)
      ensures tables.Keys == old(tables.Keys) + (set f | f in old(pmm.Abs()).free[..n])
      ensures Here(root, vaddr) in old(view) ==> old(view)[Here(root, vaddr)].frame < |old(pmm.Abs()).frames|
      ensures pmm.Abs() == if ok then Remapped(AllocN(old(pmm.Abs()), n), old(view), Here(root, vaddr), frame)
                           else AllocN(old(pmm.Abs()), n)
      ensures |pmm.Abs().free| >= |old(pmm.Abs()).free| - n && n <= old(Missing(at, root, vaddr))
      ensures Spare() == old(Spare()) + if ok && LastRef(old(pmm.Abs()), old(view), Here(root, vaddr)) then 1 else 0
      ensures SameRoots(old(at), at) && (n == 0 ==> via == old(via))
      ensures ViaGrown(old(via), via, root, PFlags(true, flags.user, false, false))
      ensures ok ==>
        (Access(via, root, vaddr, flags) == flags <==> (flags.user ==> PathOpen(old(Barred()), root, vaddr)))
      ensures SameExcess(old(pmm.Abs()), old(tables.Keys), old(view), pmm.Abs(), tables.Keys, view)
      ensures ok && old(NoVacant(tables, at)) ==> NoVacant(tables, at)
    {
      hide FrameStates.Valid, Pmm.Sound, Tree, Denotes, FramesOk, NoVacantBut, AllocN, Add, Drop, Covering, Index,
           Excess, SameExcess, OfOthers, Leads, ViaGrown, BarredOf, Access, SameRoots, PathOpen, LastRef, Remapped;
      ghost var s, tables0, l := pmm.Abs(), tables.Keys, Here(root, vaddr);
      LeafPosition(root, vaddr);
      if l in view { MappedFrame(l); }
      Ancestors(root, vaddr);
      var table;
      table, n := LeafTable(root, vaddr, Some(PFlags(true, flags.user, false, false)));
      GrowthExcess(s, tables0, view, n);
      GrownSize(s, tables0, view, l, n);
      if table.Null? {
        return false, n;
      }
      MappableAfter(s, tables0, view, l, frame, n);
      RemappedSize(pmm.Abs(), tables.Keys, view, l, frame);
      ghost var s1, tables1 := pmm.Abs(), tables.Keys;
      Replace(table.pfn, root, vaddr, frame, flags);
      SameExcessTwice(s, tables0, old(view), s1, tables1, old(view), pmm.Abs(), tables.Keys, view);
      OnTheWay(root, vaddr);
      MappedAccess(tables, at, via, old(via), root, vaddr, flags);
      ok := true;
    }

    /** map_page where nothing is mapped yet and the tables it needs can be had. */
    method MapNew(root: nat, vaddr: nat, frame: nat, flags: PFlags) returns (ghost n: nat)
      requires Valid() && IsRoot(root) && UserAddress(vaddr) && Here(root, vaddr) !in view
      requires Mappable(pmm.Abs(), tables.Keys, view, Here(root, vaddr), frame)
      requires Missing(at, root, vaddr) <= |pmm.Abs().free|
      modifies this, pmm, pmm.db
      ensures Valid() && n <= 3 && n <= |old(pmm.Abs()).free| && |pmm.Abs().free| == |old(pmm.Abs()).free| - n
      ensures n <= old(Missing(at, root, vaddr))
      ensures view == old(view)[Here(root, vaddr) := Leaf(frame, flags)] && Spare() == old(Spare())
      ensures frame < |old(pmm.Abs()).frames| && pmm.Abs() == Add(AllocN(old(pmm.Abs()), n), frame)
      ensures SameRoots(old(at), at) && ViaGrown(old(via), via, root, PFlags(true, flags.user, false, false))
    {
      hide FrameStates.Valid, Pmm.Sound, Pmm.Abs, Tree, Denotes, Leads, FramesOk, NoVacant, AllocN, Add, Drop, Covering,
           SameExcess, OfOthers, ViaGrown, BarredOf, Access, SameRoots, PathOpen, Missing;
      ghost var s := pmm.Abs();
      var ok;
      ok, n := MapPage(root, vaddr, frame, flags);
      RoomAfter(s, n, frame);
    }

    lemma RoomAfter(s: State, n: nat, f: nat)
      requires FrameStates.Valid(s) && n <= |s.free| && f < |s.frames| && s.frames[f].kind.Allocated?
      ensures |Add(AllocN(s, n), f).free| == |s.free| - n
    {
      AllocNSame(s, n, f);
    }

    /** map_page over a page that is mapped: all its tables are there. */
    method MapOver(root: nat, vaddr: nat, frame: nat, flags: PFlags)
      requires Valid() && IsRoot(root) && UserAddress(vaddr) && Here(root, vaddr) in view
      requires Mappable(pmm.Abs(), tables.Keys, view, Here(root, vaddr), frame)
      modifies this, pmm, pmm.db
      ensures Valid() && SameRoots(old(at), at) && via == old(via) && tables.Keys == old(tables.Keys)
      ensures view == old(view)[Here(root, vaddr) := Leaf(frame, flags)]
      ensures frame < |old(pmm.Abs()).frames| && old(view)[Here(root, vaddr)].frame < |old(pmm.Abs()).frames|
      ensures pmm.Abs() == Remapped(old(pmm.Abs()), old(view), Here(root, vaddr), frame)
      ensures Spare() == old(Spare()) + if LastRef(old(pmm.Abs()), old(view), Here(root, vaddr)) then 1 else 0
    {
      hide FrameStates.Valid, Pmm.Sound, Pmm.Abs, Tree, Denotes, Leads, FramesOk, NoVacant, AllocN, Add, Drop, Covering,
           SameExcess, OfOthers, ViaGrown, BarredOf, Access, SameRoots, PathOpen, Missing, Remapped, LastRef;
      NoneTaken(pmm.Abs());
      var _, _ := MapPage(root, vaddr, frame, flags);
    }

    lemma NoneTaken(s: State)
      ensures AllocN(s, 0) == s && (set f | f in s.free[..0]) == {}
    {
      assert AllocN(s, 0).frames == s.frames;
    }

    lemma OnTheWay(root: nat, vaddr: nat)
      requires Tree(tables, at, pos) && UserAddress(vaddr) && Covering(root, vaddr, 1) in at
      ensures forall level :: 1 <= level <= 3 ==> Covering(root, vaddr, level) in at
    {
      Ancestors(root, vaddr);
    }

    /** The part of map_page after the walk. */
    method Replace(table: nat, root: nat, vaddr: nat, frame: nat, flags: PFlags)
      requires Valid() && Covering(root, vaddr, 1) in at && at[Covering(root, vaddr, 1)] == table
      requires Mappable(pmm.Abs(), tables.Keys, view, Here(root, vaddr), frame)
      modifies this`tables, this`view, pmm, pmm.db
      ensures Valid() && tables.Keys == old(tables.Keys)
      ensures view == old(view)[Here(root, vaddr) := Leaf(frame, flags)]
      ensures Here(root, vaddr) in old(view) ==> old(view)[Here(root, vaddr)].frame < |old(pmm.Abs()).frames|
      ensures pmm.Abs() == Remapped(old(pmm.Abs()), old(view), Here(root, vaddr), frame)
      ensures SameExcess(old(pmm.Abs()), old(tables.Keys), old(view), pmm.Abs(), tables.Keys, view)
      ensures old(NoVacantBut(tables, at, Covering(root, vaddr, 1))) ==> NoVacant(tables, at)
    {
      hide FrameStates.Valid, Pmm.Sound, Tree, Denotes, Leads, FramesOk, NoVacantBut, Add, Drop, Covering, Index,
           Excess, SameExcess;
      var e := ReadEntry(table, root, vaddr);
      MapFrames(pmm.Abs(), tables.Keys, view, Here(root, vaddr), Leaf(frame, flags));
      if e.Present? {
        pmm.DropMapping(e.frame);
      }
      WriteEntry(table, root, vaddr, Present(frame, flags));
      pmm.AddMapping(frame);
    }

    /** _table_empty. */
    method TableEmpty(table: nat) returns (empty: bool)
      requires table in tables
      ensures empty <==> Vacant(tables[table])
    {
      var i := 0;
      while i < |tables[table]|
        invariant 0 <= i <= |tables[table]|
        invariant forall j :: 0 <= j < i ==> tables[table][j].Absent?
      {
        if tables[table][i].Present? {
          return false;
        }
        i := i + 1;
      }
      return true;
    }

    /** Clear the entry that points to the vacant table at `c`, and forget the table. */
    method Detach(parent: nat, i: nat, child: nat, ghost c: Pos)
      requires Tree(tables, at, pos) && Denotes(tables, at, view) && Leads(tables, at, via)
      requires c in at && c.level < 4 && at[c] == child && Vacant(tables[child])
      requires Parent(c) in at && at[Parent(c)] == parent && i == c.prefix % 512
      modifies this`tables, this`at, this`pos, this`via
      ensures Tree(tables, at, pos) && Denotes(tables, at, view) && Leads(tables, at, via)
      ensures at == old(at) - {c} && tables.Keys == old(tables.Keys) - {child} && via == old(via) - {c}
      ensures old(NoVacantBut(tables, at, c)) ==> NoVacantBut(tables, at, Parent(c))
    {
      hide Tree, Denotes, Leads, NoVacantBut, Vacant;
      CutTable(tables, at, pos, view, via, c);
      tables := tables - {child};
      tables := tables[parent := tables[parent][i := Absent]];
      at, pos, via := at - {c}, pos - {child}, via - {c};
    }

    /** One level of __u_pte_free_empty: give a table without present entries back. */
    method Prune(parent: nat, i: nat, child: nat, ghost c: Pos) returns (empty: bool)
      requires Valid() && c in at && c.level < 4 && at[c] == child
      requires Parent(c) in at && at[Parent(c)] == parent && i == c.prefix % 512
      modifies this`tables, this`at, this`pos, this`via, pmm, pmm.db
      ensures Valid()
      ensures Pruned(view, old(pmm.Abs()), old(tables.Keys), old(at), pmm.Abs(), tables.Keys, at)
      ensures at == if empty then old(at) - {c} else old(at)
      ensures OfOthers(at, c.root) == old(OfOthers(at, c.root)) && ViaLess(old(via), via)
      ensures old(NoVacantBut(tables, at, c)) ==>
        if empty then NoVacantBut(tables, at, Parent(c)) else NoVacant(tables, at)
    {
      hide FrameStates.Valid, Pmm.Sound, Tree, Denotes, Leads, FramesOk, NoVacantBut, Release, Pruned, Vacant, OfOthers;
      AtTable(tables, at, pos, c);
      PrunedOne(pmm.Abs(), tables.Keys, at, view, c);
      PrunedNone(view, pmm.Abs(), tables.Keys, at);
      OthersKept(at, c, 0);
      empty := TableEmpty(child);
      if !empty {
        if NoVacantBut(tables, at, c) { NotVacantHere(tables, at, pos, c); }
      } else {
        pmm.Release(child);
        Detach(parent, i, child, c);
      }
    }

    /** Follow an entry without creating anything. */
    method Below(table: nat, vaddr: nat, level: nat, ghost root: nat) returns (next: Link)
      requires Valid() && 1 < level <= 4 && UserAddress(vaddr)
      requires Covering(root, vaddr, level) in at && at[Covering(root, vaddr, level)] == table
      ensures next == if Covering(root, vaddr, level - 1) in at then To(at[Covering(root, vaddr, level - 1)]) else Null
    {
      CoveringStep(root, vaddr, level);
      CoveringStep(root, vaddr, level - 1);
      assert Entry(tables, at, Covering(root, vaddr, level), Index(vaddr, level));
      var entry := tables[table][Index(vaddr, level)];
      next := if entry.Present? then To(entry.frame) else Null;
    }

    /** The upper two levels of __u_pte_free_empty. */
    method PruneUpper(root: nat, pml3: nat, pml2: nat, vaddr: nat)
      requires Valid() && UserAddress(vaddr)
      requires Covering(root, vaddr, 4) in at && at[Covering(root, vaddr, 4)] == root
      requires Covering(root, vaddr, 3) in at && at[Covering(root, vaddr, 3)] == pml3
      requires Covering(root, vaddr, 2) in at && at[Covering(root, vaddr, 2)] == pml2
      modifies this`tables, this`at, this`pos, this`via, pmm, pmm.db
      ensures Valid()
      ensures Pruned(view, old(pmm.Abs()), old(tables.Keys), old(at), pmm.Abs(), tables.Keys, at)
      ensures OfOthers(at, root) == old(OfOthers(at, root)) && ViaLess(old(via), via)
      ensures old(NoVacantBut(tables, at, Covering(root, vaddr, 2))) ==> NoVacant(tables, at)
    {
      hide FrameStates.Valid, Pmm.Sound, Pmm.Abs, Tree, Denotes, Leads, FramesOk, Pruned, UserAddress, Index, OfOthers;
      Relatives(root, vaddr);
      var empty := Prune(pml3, Index(vaddr, 3), pml2, Covering(root, vaddr, 2));
      if empty {
        ghost var s1, tables1, at1 := pmm.Abs(), tables.Keys, at;
        empty := Prune(root, Index(vaddr, 4), pml3, Covering(root, vaddr, 3));
        PrunedTwice(view, old(pmm.Abs()), old(tables.Keys), old(at), s1, tables1, at1, pmm.Abs(), tables.Keys, at);
      }
    }

    /** __u_pte_free_empty: tables left without present entries on the path to an address go back. */
    method FreeEmpty(root: nat, vaddr: nat)
      requires Valid() && IsRoot(root) && UserAddress(vaddr)
      modifies this`tables, this`at, this`pos, this`via, pmm, pmm.db
      ensures Valid()
      ensures Pruned(view, old(pmm.Abs()), old(tables.Keys), old(at), pmm.Abs(), tables.Keys, at)
      ensures OfOthers(at, root) == old(OfOthers(at, root)) && ViaLess(old(via), via)
      ensures old(NoVacantBut(tables, at, Covering(root, vaddr, 1))) ==> NoVacant(tables, at)
    {
      hide FrameStates.Valid, Pmm.Sound, Pmm.Abs, Tree, Denotes, Leads, FramesOk, Pruned, UserAddress, Index, Covering,
           GrewBy, OfOthers;
      AtRoot(root, vaddr);
      Ancestors(root, vaddr);
      Relatives(root, vaddr);
      PrunedNone(view, pmm.Abs(), tables.Keys, at);
      var pml3 := Below(root, vaddr, 4, root);
      if pml3.Null? {
        return;
      }
      var pml2 := Below(pml3.pfn, vaddr, 3, root);
      if pml2.Null? {
        return;
      }
      var pml1 := Below(pml2.pfn, vaddr, 2, root);
      if pml1.Null? {
        return;
      }
      var empty := Prune(pml2.pfn, Index(vaddr, 2), pml1.pfn, Covering(root, vaddr, 1));
      if empty {
        ghost var s1, tables1, at1 := pmm.Abs(), tables.Keys, at;
        PruneUpper(root, pml3.pfn, pml2.pfn, vaddr);
        PrunedTwice(view, old(pmm.Abs()), old(tables.Keys), old(at), s1, tables1, at1, pmm.Abs(), tables.Keys, at);
      }
    }

    /** unmap_page: an unmapped address is left alone; otherwise exactly one page loses its
        translation, and no table on the way to it stays behind without present entries. */
    method UnmapPage(root: nat, vaddr: nat)
      requires Valid() && IsRoot(root) && UserAddress(vaddr)
      modifies this, pmm, pmm.db
      ensures Valid() && view == old(view) - {Here(root, vaddr)}
      ensures (forall q :: q in old(at) && q.level == 4 ==> q in at) && OfOthers(at, root) == old(OfOthers(at, root))
      ensures tables.Keys <= old(tables.Keys) && SameRoots(old(at), at) && ViaLess(old(via), via)
      ensures |pmm.Abs().free| >= |old(pmm.Abs()).free|
      ensures Here(root, vaddr) in old(view) ==> |pmm.Abs().free| >= |old(pmm.Abs()).free| + Missing(at, root, vaddr)
      ensures Here(root, vaddr) !in old(view) ==> unchanged(this) && pmm.Abs() == old(pmm.Abs())
      ensures Here(root, vaddr) in old(view) ==>
        && old(view)[Here(root, vaddr)].frame < |old(pmm.Abs()).frames|
        && Returned(Drop(old(pmm.Abs()), old(view)[Here(root, vaddr)].frame), pmm.Abs(),
                    old(tables.Keys) - tables.Keys)
      ensures SameExcess(old(pmm.Abs()), old(tables.Keys), old(view), pmm.Abs(), tables.Keys, view)
      ensures old(NoVacant(tables, at)) ==> NoVacant(tables, at)
    {
      hide FrameStates.Valid, Pmm.Sound, Tree, Denotes, Leads, FramesOk, NoVacantBut, Covering, Index, Drop, Excess,
           SameExcess, Returned, GrewBy, UserAddress, OfOthers, Missing;
      ghost var s, tables0, view0, l := pmm.Abs(), tables.Keys, view, Here(root, vaddr);
      ghost var whole, at0, pos0 := tables, at, pos;
      Ancestors(root, vaddr);
      LeafPosition(root, vaddr);
      if l in view { MappedFrame(l); }
      SameExcessNone(s, tables0, view);
      var table, _ := LeafTable(root, vaddr, None);
      var e := Absent;
      if table.To? {
        e := ReadEntry(table.pfn, root, vaddr);
      }
      if e.Absent? {
        return;
      }
      DropFrames(s, tables0, view0, l);
      pmm.DropMapping(e.frame);
      WriteEntry(table.pfn, root, vaddr, Absent);
      ghost var s1 := pmm.Abs();
      FreeEmpty(root, vaddr);
      SameExcessTwice(s, tables0, view0, s1, tables0, view, pmm.Abs(), tables.Keys, view);
      PathRoom(s, whole, at0, pos0, view0, e.frame, pmm.Abs(), tables, at, pos, root, vaddr);
    }

    lemma Relatives(root: nat, vaddr: nat)
      requires UserAddress(vaddr)
      ensures Covering(root, vaddr, 1).level == 1 && Covering(root, vaddr, 2).level == 2
      ensures Covering(root, vaddr, 3).level == 3 && Covering(root, vaddr, 4).level == 4
      ensures forall level :: 1 <= level <= 4 ==> Covering(root, vaddr, level).root == root
      ensures Parent(Covering(root, vaddr, 1)) == Covering(root, vaddr, 2)
      ensures Parent(Covering(root, vaddr, 2)) == Covering(root, vaddr, 3)
      ensures Parent(Covering(root, vaddr, 3)) == Covering(root, vaddr, 4)
      ensures Covering(root, vaddr, 1).prefix % 512 == Index(vaddr, 2)
      ensures Covering(root, vaddr, 2).prefix % 512 == Index(vaddr, 3)
      ensures Covering(root, vaddr, 3).prefix % 512 == Index(vaddr, 4)
    {
      CoveringStep(root, vaddr, 1);
      CoveringStep(root, vaddr, 2);
      CoveringStep(root, vaddr, 3);
    }

    /** What tearing down region `r` has done since the state described by the arguments. */
    ghost predicate Cleared(s: State, tables0: Tables, view0: map<Loc, Leaf>, r: Region)
      reads this, pmm, pmm.db
    {
      && pmm.Valid() && FramesOk(pmm.Abs(), tables.Keys, view)
      && tables0.Keys <= pos.Keys
      && tables == Outside(tables0, pos, r) && view == ViewOutside(view0, r)
      && SameExcess(s, tables0.Keys, view0, pmm.Abs(), tables.Keys, view)
      && Spared(s, tables0.Keys, view0, r, pmm.Abs()) && Gone(pmm.Abs(), tables0.Keys - tables.Keys)
    }

    /** Drop the mapping behind entry `i` of the level-1 table at `q`. */
    method FreeLeaf(table: nat, i: nat, ghost q: Pos, ghost whole: Tables, ghost s: State, ghost view0: map<Loc, Leaf>)
      requires q in at && at[q] == table && q.level == 1 && i < 512
      requires Intact(whole, at, pos, tables, view0, Under(q))
      requires Cleared(s, tables, view0, FirstEntries(q, i))
      modifies this`view, pmm, pmm.db
      ensures Cleared(s, tables, view0, FirstEntries(q, i + 1))
    {
      hide FrameStates.Valid, Pmm.Sound, Tree, Intact, FramesOk, Drop, Excess, SameExcess, Outside, FirstEntries, Under,
           Spared;
      LeafStep(whole, at, pos, tables, view0, q, i);
      SparedLeaf(s, tables.Keys, view0, q, i, pmm.Abs());
      ghost var l, s1, view1 := Loc(q.root, q.prefix * 512 + i), pmm.Abs(), view;
      var entry := tables[table][i];
      if entry.Present? {
        DropFrames(s1, tables.Keys, view, l);
        pmm.DropMapping(entry.frame);
        view := view - {l};
        SameExcessTwice(s, tables.Keys, view0, s1, tables.Keys, view1, pmm.Abs(), tables.Keys, view);
      }
    }

    /** _free_pte on the table at `q`, whose entries have been dealt with. */
    method FreeTable(table: nat, ghost q: Pos, ghost whole: Tables, ghost s: State,
                     ghost tables0: Tables, ghost view0: map<Loc, Leaf>)
      requires q in at && at[q] == table && q.level >= 1
      requires Intact(whole, at, pos, tables0, view0, Under(q))
      requires Cleared(s, tables0, view0, FirstEntries(q, 512))
      modifies this`tables, pmm, pmm.db
      ensures Cleared(s, tables0, view0, Under(q))
    {
      hide FrameStates.Valid, Pmm.Sound, Tree, Intact, FramesOk, Release, Excess, SameExcess, ViewOutside, FirstEntries,
           Under, Spared, Gone;
      LastOfRegion(whole, at, pos, tables0, view0, q);
      OutsideAll(whole, at, pos, tables0, view0, q);
      ghost var s1, tables1 := pmm.Abs(), tables.Keys;
      ReleaseTableFrame(s1, tables1, view, table);
      assert table in tables0.Keys;
      SparedAll(s, tables0.Keys, view0, q, s1, table);
      pmm.Release(table);
      tables := tables - {table};
      assert tables.Keys == tables1 - {table};
      GoneMore(s1, tables0.Keys - tables1, table, pmm.Abs());
      assert tables0.Keys - tables.Keys == tables0.Keys - tables1 + {table};
      SameExcessTwice(s, tables0.Keys, view0, s1, tables1, view, pmm.Abs(), tables.Keys, view);
    }

    /** _pte_free_level: everything under the table at `q` is unmapped and its tables go back. */
    method FreeLevel(table: nat, level: nat, ghost q: Pos, ghost whole: Tables)
      requires pmm.Valid() && FramesOk(pmm.Abs(), tables.Keys, view)
      requires q in at && at[q] == table && q.level == level && 1 <= level <= 3
      requires Intact(whole, at, pos, tables, view, Under(q))
      modifies this`tables, this`view, pmm, pmm.db
      ensures Cleared(old(pmm.Abs()), old(tables), old(view), Under(q))
      decreases level
    {
      hide FrameStates.Valid, Pmm.Sound, Pmm.Abs, Tree, FramesOk, Excess, SameExcess, Outside, ViewOutside,
           FirstEntries, Under, Spared;
      ghost var s, tables0, view0 := pmm.Abs(), tables, view;
      OutsideNone(tables, pos, view, q);
      SameExcessNone(s, tables.Keys, view);
      SparedNone(s, tables.Keys, view, FirstEntries(q, 0));
      var i := 0;
      if level == 1 {
        while i < 512
          invariant 0 <= i <= 512 && tables == tables0
          invariant Cleared(s, tables0, view0, FirstEntries(q, i))
        {
          FreeLeaf(table, i, q, whole, s, view0);
          i := i + 1;
        }
        FreeTable(table, q, whole, s, tables0, view0);
        return;
      }
      while i < 512
        invariant 0 <= i <= 512
        invariant Cleared(s, tables0, view0, FirstEntries(q, i))
      {
        FreeChild(table, i, level, q, whole, s, tables0, view0);
        i := i + 1;
      }
      FreeTable(table, q, whole, s, tables0, view0);
    }

    method FreeChild(table: nat, i: nat, level: nat, ghost q: Pos, ghost whole: Tables, ghost s: State,
                     ghost tables0: Tables, ghost view0: map<Loc, Leaf>)
      requires q in at && at[q] == table && q.level == level && 2 <= level <= 4 && i < 512
      requires Intact(whole, at, pos, tables0, view0, Under(q))
      requires Cleared(s, tables0, view0, FirstEntries(q, i))
      modifies this`tables, this`view, pmm, pmm.db
      ensures Cleared(s, tables0, view0, FirstEntries(q, i + 1))
      decreases level, 0
    {
      hide FrameStates.Valid, Pmm.Sound, Pmm.Abs, Tree, Intact, FramesOk, Excess, SameExcess, ViewOutside, FirstEntries,
           Under, Spared, Gone;
      ghost var s1, tables1, view1, c := pmm.Abs(), tables, view, Child(q, i);
      SparedMore(s, tables0.Keys, view0, q, i, i + 1, s1);
      ChildStep(whole, at, pos, tables0, view0, tables, view, q, i);
      OutsideStep(tables0, pos, view0, q, i);
      var entry := tables[table][i];
      if entry.Present? {
        FreeLevel(entry.frame, level - 1, c, whole);
        SparedChild(s, tables0.Keys, view0, q, i, s1, tables1.Keys, pmm.Abs());
        GoneStays(s1, tables1.Keys, view1, Under(c), pmm.Abs(), tables0.Keys - tables1.Keys);
        GoneBoth(pmm.Abs(), tables0.Keys - tables1.Keys, tables1.Keys - tables.Keys);
        assert tables0.Keys - tables.Keys == tables0.Keys - tables1.Keys + (tables1.Keys - tables.Keys);
        SameExcessTwice(s, tables0.Keys, view0, s1, tables1.Keys, view1, pmm.Abs(), tables.Keys, view);
      }
    }

    /** pte_alloc: a new address space, with nothing mapped in it. */
    method PteAlloc() returns (root: Link)
      requires Valid()
      modifies this`tables, this`at, this`pos, pmm, pmm.db
      ensures Valid()
      ensures root.Null? <==> old(pmm.Abs()).free == []
      ensures root.Null? ==> unchanged(this) && pmm.Abs() == old(pmm.Abs())
      ensures root.To? ==>
        && root.pfn == old(pmm.Abs()).free[0] && root.pfn < |old(pmm.Abs()).frames|
        && pmm.Abs() == Alloc(old(pmm.Abs()))
        && IsRoot(root.pfn) && (forall q :: q in old(at) ==> q in at && q.root != root.pfn)
        && tables.Keys == old(tables.Keys) + {root.pfn}
        && OfOthers(at, root.pfn) == old(at) && at == old(at)[Pos(root.pfn, 4, 0) := root.pfn]
        && (forall l :: l in view ==> l.root != root.pfn)
      ensures SameExcess(old(pmm.Abs()), old(tables.Keys), view, pmm.Abs(), tables.Keys, view)
      ensures old(NoVacant(tables, at)) ==> NoVacant(tables, at)
    {
      hide FrameStates.Valid, Pmm.Sound, Pmm.Abs, Tree, Denotes, Leads, FramesOk, Excess, SameExcess, NoVacantBut;
      ghost var s := pmm.Abs();
      SameExcessNone(s, tables.Keys, view);
      root := pmm.AllocPage();
      if root.To? {
        AllocTableFrame(s, tables.Keys, view);
        Plant(root.pfn);
      }
    }

    method Plant(f: nat)
      requires Tree(tables, at, pos) && Denotes(tables, at, view) && Leads(tables, at, via) && f !in tables
      modifies this`tables, this`at, this`pos
      ensures Tree(tables, at, pos) && Denotes(tables, at, view) && Leads(tables, at, via)
      ensures IsRoot(f) && (forall q :: q in old(at) ==> q in at && q.root != f)
      ensures tables.Keys == old(tables.Keys) + {f} && OfOthers(at, f) == old(at) && at == old(at)[Pos(f, 4, 0) := f]
      ensures forall l :: l in view ==> l.root != f
      ensures old(NoVacant(tables, at)) ==> NoVacant(tables, at)
    {
      hide Tree, Denotes, Leads, NoVacant;
      Planted(tables, at, pos, view, f);
      PlantedLeads(tables, at, pos, via, f);
      if NoVacant(tables, at) { PlantedVacancy(tables, at, pos, f); }
      tables := tables[f := EMPTY];
      at, pos := at[Pos(f, 4, 0) := f], pos[f := Pos(f, 4, 0)];
      assert OfOthers(at, f) == old(at);
    }

    /** pte_free: every page of the address space is unmapped and all its tables go back. */
    method PteFree(root: nat)
      requires Valid() && IsRoot(root)
      modifies this, pmm, pmm.db
      ensures Valid()
      ensures view == ViewOfOthers(old(view), root) && tables.Keys == FramesOfOthers(old(pos), root).Keys
      ensures at == OfOthers(old(at), root) && pos == FramesOfOthers(old(pos), root)
      ensures via == ViaOfOthers(old(via), root) && Gone(pmm.Abs(), old(tables.Keys) - tables.Keys)
      ensures Spared(old(pmm.Abs()), old(tables.Keys), old(view), Under(Pos(root, 4, 0)), pmm.Abs())
      ensures SameExcess(old(pmm.Abs()), old(tables.Keys), old(view), pmm.Abs(), tables.Keys, view)
    {
      hide FrameStates.Valid, Pmm.Sound, Pmm.Abs, Tree, Denotes, Intact, FramesOk, Excess, SameExcess, Outside,
           ViewOutside, FirstEntries, Under, OfOthers, FramesOfOthers, ViewOfOthers, Spared, Leads, ViaOfOthers, Gone;
      ghost var s, tables0, view0, q := pmm.Abs(), tables, view, Pos(root, 4, 0);
      RootAt(root);
      WholeIntact(tables, at, pos, view, Under(q));
      Uprooted(tables, at, pos, view, root);
      UprootedLeads(tables, at, pos, view, via, root);
      UpperHalfEmpty(tables, at, pos, view, root);
      OutsideNone(tables, pos, view, q);
      SameExcessNone(s, tables.Keys, view);
      SparedNone(s, tables.Keys, view, FirstEntries(q, 0));
      GoneNone(s, tables.Keys);
      var i := 0;
      while i < 256
        invariant 0 <= i <= 256 && at == old(at) && pos == old(pos) && via == old(via)
        invariant Cleared(s, tables0, view0, FirstEntries(q, i))
      {
        FreeChild(root, i, 4, q, tables0, s, tables0, view0);
        i := i + 1;
      }
      SparedMore(s, tables0.Keys, view0, q, 256, 512, pmm.Abs());
      FreeTable(root, q, tables0, s, tables0, view0);
      at, pos, via := OfOthers(at, root), FramesOfOthers(pos, root), ViaOfOthers(via, root);
    }

    lemma RootAt(root: nat)
      requires Valid() && IsRoot(root)
      ensures at[Pos(root, 4, 0)] == root
    {
      hide FrameStates.Valid, Pmm.Sound, Denotes, Leads, FramesOk;
    }

    ghost function Snap(): Snapshot
      reads this, pmm, pmm.db
    {
      Snapshot(pmm.Abs(), tables, at, pos, view)
    }

    /** Any run of map_page and unmap_page on one address space: the tables denote what the
        operations mean, the other address spaces are untouched and nobody loses references. A map fails
        exactly when frames for its tables are short, so three free frames for each map are enough; and
        when the address space maps nothing any more it has only its root left. */
    method Run(root: nat, ops: seq<PtOp>) returns (ok: bool, ghost trace: seq<Snapshot>, ghost done: seq<bool>)
      requires Valid() && IsRoot(root) && OpsOk(pmm.Abs(), tables.Keys, view, ops)
      modifies this, pmm, pmm.db
      ensures Valid() && IsRoot(root) && PtRun(trace, root, ops, done)
      ensures trace[0] == old(Snap()) && trace[|ops|] == Snap()
      ensures ok <==> All(done)
      ensures 3 * Maps(ops) <= |old(pmm.Abs()).free| ==> ok
      ensures ok ==> view == ApplyAll(old(view), root, ops)
      ensures ViewOfOthers(view, root) == old(ViewOfOthers(view, root))
      ensures OfOthers(at, root) == old(OfOthers(at, root))
      ensures SameExcess(old(pmm.Abs()), old(tables.Keys), old(view), pmm.Abs(), tables.Keys, view)
      ensures ok && old(NoVacant(tables, at)) ==> NoVacant(tables, at)
      ensures ok && old(NoVacant(tables, at)) && (forall l :: l in view ==> l.root != root) ==>
        forall f :: f in tables && f in pos && pos[f].root == root ==> f == root
    {
      hide FrameStates.Valid, Pmm.Sound, Pmm.Abs, Tree, Denotes, Leads, FramesOk, NoVacantBut, Excess, SameExcess,
           UserAddress, OfOthers, Mappable, Held, ViewOfOthers, PtStep;
      ghost var s, tables0, view0 := pmm.Abs(), tables.Keys, view;
      SameExcessNone(s, tables0, view0);
      ok, trace, done := true, [Snap()], [];
      var i := 0;
      assert ops[..0] == [];
      while i < |ops|
        invariant 0 <= i <= |ops| && Valid() && IsRoot(root) && PtRun(trace, root, ops[..i], done)
        invariant trace[0] == old(Snap()) && trace[i] == Snap()
        invariant ok <==> All(done)
        invariant ViewOfOthers(view, root) == ViewOfOthers(view0, root)
        invariant OfOthers(at, root) == old(OfOthers(at, root))
        invariant SameExcess(s, tables0, view0, pmm.Abs(), tables.Keys, view)
      {
        ApplyKeepsOthers(view, root, ops[i]);
        var made := RunOne(root, ops[i], s, tables0, view0);
        PtRunMore(trace, root, ops, i, done, made, Snap());
        AllMore(done, made);
        ok, trace, done := ok && made, trace + [Snap()], done + [made];
        i := i + 1;
      }
      assert ops[..i] == ops && ops[0..] == ops;
      if 3 * Maps(ops) <= |s.free| { FundedRun(trace, root, ops, done, 0); }
      if ok { AllDone(trace, root, ops, done); }
    }

    lemma PtRunMore(trace: seq<Snapshot>, root: nat, ops: seq<PtOp>, i: nat, done: seq<bool>, made: bool, x: Snapshot)
      requires i < |ops| && PtRun(trace, root, ops[..i], done)
      requires Sound(trace[i]) && Sound(x) && PtStep(trace[i], root, ops[i], made, x)
      ensures PtRun(trace + [x], root, ops[..i+1], done + [made])
    {
      hide Sound, PtStep;
      var trace', done' := trace + [x], done + [made];
      assert forall k :: 0 <= k < |trace'| ==> trace'[k] == if k <= i then trace[k] else x;
      forall k | 0 <= k < i + 1 ensures PtStep(trace'[k], root, ops[..i+1][k], done'[k], trace'[k+1]) {
        if k < i { assert PtStep(trace[k], root, ops[..i][k], done[k], trace[k+1]); }
      }
    }

    lemma AllDone(trace: seq<Snapshot>, root: nat, ops: seq<PtOp>, done: seq<bool>)
      requires PtRun(trace, root, ops, done) && forall k :: 0 <= k < |ops| ==> done[k]
      ensures trace[|ops|].view == ApplyAll(trace[0].view, root, ops)
      ensures var x, x' := trace[0], trace[|ops|];
        && Sound(x) && Sound(x') && (NoVacant(x.tables, x.at) ==> NoVacant(x'.tables, x'.at))
        && (NoVacant(x.tables, x.at) && (forall l :: l in x'.view ==> l.root != root) ==>
              forall f :: f in x'.tables && f in x'.pos && x'.pos[f].root == root ==> f == root)
    {
      hide FrameStates.Valid, Tree, Denotes, Leads, FramesOk, PtStep, NoVacant;
      assert ops[..|ops|] == ops;
      var x, x' := trace[0], trace[|ops|];
      RunDenotes(trace, root, ops, done, |ops|);
      if NoVacant(x.tables, x.at) && forall l :: l in x'.view ==> l.root != root {
        RunLeavesRootBare(trace, root, ops, done);
      }
    }

    method RunOne(root: nat, op: PtOp, ghost s: State, ghost tables0: set<nat>, ghost view0: map<Loc, Leaf>)
      returns (ok: bool)
      requires Valid() && IsRoot(root) && OpsOk(s, tables0, view0, [op])
      requires SameExcess(s, tables0, view0, pmm.Abs(), tables.Keys, view)
      modifies this, pmm, pmm.db
      ensures Valid() && IsRoot(root) && PtStep(old(Snap()), root, op, ok, Snap())
      ensures view == if ok then Apply(old(view), root, op) else old(view)
      ensures OfOthers(at, root) == old(OfOthers(at, root))
      ensures SameExcess(s, tables0, view0, pmm.Abs(), tables.Keys, view)
    {
      assert [op][0] == op;
      hide FrameStates.Valid, Pmm.Sound, Pmm.Abs, Tree, Denotes, Leads, FramesOk, NoVacantBut, Excess, SameExcess,
           UserAddress, OfOthers, Mappable, Remapped, AllocN, Returned, Drop, Missing;
      hide NoVacant, PtRun, Toll;
      ghost var s1, tables1, view1 := pmm.Abs(), tables.Keys, view;
      match op
      case DoMap(vaddr, frame, flags) =>
        HeldIsMappable(s, tables0, view0, s1, tables1, view1, Here(root, vaddr), frame);
        ok := MapStep(root, vaddr, frame, flags);
        SameExcessTwice(s, tables0, view0, s1, tables1, view1, pmm.Abs(), tables.Keys, view);
      case DoUnmap(vaddr) =>
        UnmapStep(root, vaddr);
        SameExcessTwice(s, tables0, view0, s1, tables1, view1, pmm.Abs(), tables.Keys, view);
        ok := true;
    }

    method MapStep(root: nat, vaddr: nat, frame: nat, flags: PFlags) returns (ok: bool)
      requires Valid() && IsRoot(root) && UserAddress(vaddr)
      requires Mappable(pmm.Abs(), tables.Keys, view, Here(root, vaddr), frame)
      modifies this, pmm, pmm.db
      ensures Valid() && IsRoot(root) && PtStep(old(Snap()), root, DoMap(vaddr, frame, flags), ok, Snap())
    {
      hide FrameStates.Valid, Pmm.Sound, Pmm.Abs, Tree, Denotes, Leads, FramesOk, NoVacant, SameExcess, OfOthers,
           Mappable, Remapped, AllocN, Missing, UserAddress;
      ghost var n;
      ok, n := MapPage(root, vaddr, frame, flags);
    }

    method UnmapStep(root: nat, vaddr: nat)
      requires Valid() && IsRoot(root) && UserAddress(vaddr)
      modifies this, pmm, pmm.db
      ensures Valid() && IsRoot(root) && PtStep(old(Snap()), root, DoUnmap(vaddr), true, Snap())
    {
      hide FrameStates.Valid, Pmm.Sound, Pmm.Abs, Tree, Denotes, Leads, FramesOk, NoVacant, SameExcess, OfOthers,
           Returned, Drop, Missing, UserAddress;
      UnmapPage(root, vaddr);
    }

    lemma AllocRoom(s: State)
      requires FrameStates.Valid(s) && s.free != [] && s.free[0] < |s.frames|
      ensures |Alloc(s).free| == |s.free| - 1
    {
    }

    /** The life of an address space: created, used in any way, torn down. Afterwards every frame has
        the references it had before, and every table frame has gone back. With a frame for the root and
        three for each map nothing fails on the way. */
    method Lifetime(ops: seq<PtOp>) returns (ok: bool)
      requires Valid() && OpsOk(pmm.Abs(), tables.Keys, view, ops)
      modifies this, pmm, pmm.db
      ensures Valid() && view == old(view) && at == old(at) && tables.Keys == old(tables.Keys)
      ensures 1 + 3 * Maps(ops) <= |old(pmm.Abs()).free| ==> ok
      ensures |pmm.Abs().frames| == |old(pmm.Abs()).frames|
      ensures forall f :: 0 <= f < |pmm.Abs().frames| ==> pmm.Abs().frames[f].refs == old(pmm.Abs()).frames[f].refs
    {
      hide FrameStates.Valid, Pmm.Sound, Pmm.Abs, Tree, Denotes, Leads, FramesOk, NoVacantBut, Excess, SameExcess,
           UserAddress, Mappable, Remapped, AllocN, Returned, Drop;
      ghost var s, tables0, whole, at0, pos0, view0 := pmm.Abs(), tables.Keys, tables, at, pos, view;
      var root := PteAlloc();
      if root.Null? {
        return false;
      }
      ghost var s1, tables1, view1 := pmm.Abs(), tables.Keys, view;
      OpsStillOk(s, tables0, view0, s1, tables1, view1, ops);
      AllocRoom(s);
      ghost var trace, done;
      ok, trace, done := Run(root.pfn, ops);
      SameExcessTwice(s, tables0, view0, s1, tables1, view1, pmm.Abs(), tables.Keys, view);
      ghost var s2, tables2, view2 := pmm.Abs(), tables.Keys, view;
      PteFree(root.pfn);
      SameExcessTwice(s, tables0, view0, s2, tables2, view2, pmm.Abs(), tables.Keys, view);
      assert view == view0;
      assert at == at0;
      SameFrames(whole, pos0, tables, pos, at);
      SameRefs(s, tables0, view0, pmm.Abs());
    }
  }
}
