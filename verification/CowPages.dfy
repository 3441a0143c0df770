/** Pages that address spaces share until one of them writes: the bookkeeping that kernel/src/mm/vmm.c
    does page by page, as values. */
module CowPages {
  import Seqs
  import opened FrameStates
  import opened PageTables

  type Bytes = seq<bv8>

  function Zeroes(): (z: Bytes)
    ensures |z| == 4096 && forall i :: 0 <= i < 4096 ==> z[i] == 0
  {
    seq(4096, _ => 0)
  }

  /** What the user of a page sees in it. */
  type Memory = map<Loc, Bytes>

  /** A mapped frame has two references and two sharers for each place that maps it: one pair taken when
      the page was allocated or forked, one by map_page. */
  ghost predicate Counted(s: State, view: map<Loc, Leaf>, f: nat) {
    f < |s.frames| && s.frames[f].refs >= 2 * |Mappers(view, f)| && s.frames[f].shares >= 2 * |Mappers(view, f)|
  }

  /** The entry of a page has the flags its area asks for, or lacks only write access and is marked
      copy-on-write; and a frame that is not marked is mapped only once. */
  ghost predicate EntryBook(s: State, view: map<Loc, Leaf>, want: map<Loc, PFlags>, data: map<nat, Bytes>, l: Loc)
    requires l in view
  {
    var leaf := view[l];
    && Counted(s, view, leaf.frame)
    && leaf.frame in data && |data[leaf.frame]| == 4096
    && l in want
    && (leaf.flags == want[l] || (leaf.flags == want[l].(write := false) && s.frames[leaf.frame].cow))
    && (s.frames[leaf.frame].cow || Mappers(view, leaf.frame) == {l})
  }

  /** Moreover a writable entry is the only mapping of its frame. */
  ghost predicate EntryOk(s: State, view: map<Loc, Leaf>, want: map<Loc, PFlags>, data: map<nat, Bytes>, l: Loc)
    requires l in view
  {
    EntryBook(s, view, want, data, l) && (view[l].flags.write ==> Mappers(view, view[l].frame) == {l})
  }

  ghost predicate PagesOk(s: State, tables: set<nat>, view: map<Loc, Leaf>, want: map<Loc, PFlags>, data: map<nat,
      Bytes>) {
    && Valid(s) && FramesOk(s, tables, view)
    && want.Keys == view.Keys
    && (forall l :: l in view ==> EntryOk(s, view, want, data, l))
  }

  ghost function Contents(view: map<Loc, Leaf>, data: map<nat, Bytes>): Memory {
    map l | l in view && view[l].frame in data :: data[view[l].frame]
  }

  /** A frame that two places map is writable through none of them. */
  lemma SharedIsReadOnly(s: State, tables: set<nat>, view: map<Loc, Leaf>, want: map<Loc, PFlags>,
                         data: map<nat, Bytes>, l: Loc, k: Loc)
    requires PagesOk(s, tables, view, want, data)
    requires l in view && k in view && l != k && view[l].frame == view[k].frame
    ensures !view[l].flags.write && !view[k].flags.write
  {
    assert EntryOk(s, view, want, data, l) && EntryOk(s, view, want, data, k);
    assert l in Mappers(view, view[l].frame) && k in Mappers(view, view[l].frame);
  }

  /** No mapped frame is on the free list, and dropping one mapping never puts it there. */
  lemma MappedStaysAllocated(s: State, tables: set<nat>, view: map<Loc, Leaf>, want: map<Loc, PFlags>,
                             data: map<nat, Bytes>, l: Loc)
    requires PagesOk(s, tables, view, want, data) && l in view
    ensures var f := view[l].frame;
      f < |s.frames| && f !in s.free && s.frames[f].refs >= 2 && s.frames[f].shares >= 2 && f !in Drop(s, f).free
  {
    var f := view[l].frame;
    assert EntryOk(s, view, want, data, l) && MappedOk(s, tables, view, f);
    assert l in Mappers(view, f);
    AtLeastOne(Mappers(view, f), l);
    DropEffect(s, f);
  }

  /** Dropping a mapping makes room for exactly the tables that go with it: its frame stays allocated. */
  lemma DropRoom(s: State, tables: set<nat>, view: map<Loc, Leaf>, want: map<Loc, PFlags>, data: map<nat, Bytes>,
                 l: Loc, s': State, tables': set<nat>)
    requires PagesBook(s, tables, view, want, data) && l in view && tables' <= tables && Valid(s')
    requires view[l].frame < |s.frames| && Returned(Drop(s, view[l].frame), s', tables - tables')
    ensures |s'.free| + |tables'| == |s.free| + |tables|
  {
    var f := view[l].frame;
    CountedTwice(s, tables, view, want, data, l);
    DropEffect(s, f);
    hide Drop, EntryBook;
    forall g: nat
      ensures g in s'.free <==> g in s.free || g in tables - tables'
      ensures !(g in s.free && g in tables - tables')
    {
      if g < |s.frames| { assert g in tables ==> g !in s.free; }
    }
    Seqs.PartSizes(s'.free, s.free, tables - tables');
    assert tables == tables' + (tables - tables');
  }

  lemma EntryFacts(s: State, tables: set<nat>, view: map<Loc, Leaf>, want: map<Loc, PFlags>, data: map<nat, Bytes>,
                   l: Loc)
    requires PagesOk(s, tables, view, want, data) && l in view
    ensures EntryOk(s, view, want, data, l) && l in want && view[l].frame in data
    ensures var f := view[l].frame; f < |s.frames| && f !in s.free && s.frames[f].kind.Allocated?
  {
    assert EntryOk(s, view, want, data, l) && MappedOk(s, tables, view, view[l].frame);
  }

  lemma AtLeastOne(a: set<Loc>, l: Loc)
    requires l in a
    ensures |a| >= 1
  {
    SubsetSize({l}, a);
  }

  /** Storing through a writable entry is seen at that place and nowhere else. */
  lemma StoreInPlace(s: State, tables: set<nat>, view: map<Loc, Leaf>, want: map<Loc, PFlags>,
                     data: map<nat, Bytes>, l: Loc, bytes: Bytes)
    requires PagesOk(s, tables, view, want, data) && l in view && view[l].flags.write && |bytes| == 4096
    ensures var data' := data[view[l].frame := bytes];
      && PagesOk(s, tables, view, want, data')
      && Contents(view, data') == Contents(view, data)[l := bytes]
  {
    var f := view[l].frame;
    var data' := data[f := bytes];
    assert EntryOk(s, view, want, data, l);
    forall k | k in view ensures EntryOk(s, view, want, data', k) {
      assert EntryOk(s, view, want, data, k);
    }
    forall k | k in view && k != l ensures view[k].frame != f {
      assert k in Mappers(view, view[k].frame);
    }
    assert Contents(view, data') == Contents(view, data)[l := bytes];
  }

  // ---- changing the protection of a mapped page

  /** Whoever may write to a frame is alone with it. */
  ghost predicate Isolated(view: map<Loc, Leaf>) {
    forall l :: l in view && view[l].flags.write ==> Mappers(view, view[l].frame) == {l}
  }

  /** Everything the books promise but isolation. */
  ghost predicate PagesBook(s: State, tables: set<nat>, view: map<Loc, Leaf>, want: map<Loc, PFlags>, data: map<nat,
      Bytes>) {
    && Valid(s) && FramesOk(s, tables, view)
    && want.Keys == view.Keys
    && (forall l :: l in view ==> EntryBook(s, view, want, data, l))
  }

  lemma BookAndIsolation(s: State, tables: set<nat>, view: map<Loc, Leaf>, want: map<Loc, PFlags>, data: map<nat,
      Bytes>)
    ensures PagesOk(s, tables, view, want, data) <==> PagesBook(s, tables, view, want, data) && Isolated(view)
  {
    if PagesOk(s, tables, view, want, data) {
      forall l | l in view
        ensures EntryBook(s, view, want, data, l) && (view[l].flags.write ==> Mappers(view, view[l].frame) == {l})
      {
        assert EntryOk(s, view, want, data, l);
      }
    }
    if PagesBook(s, tables, view, want, data) && Isolated(view) {
      forall l | l in view ensures EntryOk(s, view, want, data, l) { assert EntryBook(s, view, want, data, l); }
    }
  }

  /** The pages whose frame is marked copy-on-write and has four sharers or more. */
  ghost function SharedPages(s: State, view: map<Loc, Leaf>): set<Loc> {
    set l | l in view && MarkedShared(s, view[l].frame)
  }

  ghost predicate MarkedShared(s: State, f: nat) {
    f < |s.frames| && s.frames[f].cow && s.frames[f].shares >= 4
  }

  /** Pages that come to be shared are pages of `roots`. */
  ghost predicate NewlyShared(was: set<Loc>, now: set<Loc>, roots: set<nat>) {
    forall l :: l in now ==> l in was || l.root in roots
  }

  lemma SharedIs(s: State, view: map<Loc, Leaf>, l: Loc)
    ensures l in SharedPages(s, view) <==> l in view && MarkedShared(s, view[l].frame)
  {
  }

  /** Pages that keep their frames and gain no sharers. */
  lemma SharedLess(s: State, view: map<Loc, Leaf>, s': State, view': map<Loc, Leaf>, more: set<Loc>)
    requires forall l :: l in view' && l !in more && MarkedShared(s', view'[l].frame) ==>
      l in view && MarkedShared(s, view[l].frame)
    ensures SharedPages(s', view') <= SharedPages(s, view) + more
  {
  }

  /** Two pages that map the same frame are shared. */
  lemma TwiceMapped(s: State, tables: set<nat>, view: map<Loc, Leaf>, want: map<Loc, PFlags>, data: map<nat, Bytes>,
                    l: Loc, k: Loc)
    requires PagesBook(s, tables, view, want, data)
    requires l in view && k in view && l != k && view[l].frame == view[k].frame
    ensures MarkedShared(s, view[l].frame)
  {
    var f := view[l].frame;
    assert EntryBook(s, view, want, data, l) && l in Mappers(view, f) && k in Mappers(view, f);
    TwoMappers(Mappers(view, f), l, k);
  }

  /** A page that is not shared has its frame to itself. */
  lemma UnmarkedIsAlone(s: State, tables: set<nat>, view: map<Loc, Leaf>, want: map<Loc, PFlags>, data: map<nat, Bytes>,
                        l: Loc)
    requires PagesBook(s, tables, view, want, data) && l in view
    ensures view[l].frame < |s.frames|
    ensures !s.frames[view[l].frame].cow || s.frames[view[l].frame].shares < 4 ==> Mappers(view, view[l].frame) == {l}
  {
    var f := view[l].frame;
    assert EntryBook(s, view, want, data, l) && l in Mappers(view, f);
    if s.frames[f].shares < 4 && Mappers(view, f) != {l} {
      var k :| k in Mappers(view, f) && k != l;
      TwoMappers(Mappers(view, f), l, k);
    }
  }

  function Reprotected(view: map<Loc, Leaf>, l: Loc, flags: PFlags): map<Loc, Leaf>
    requires l in view
  {
    view[l := view[l].(flags := flags)]
  }

  lemma ReprotectedMappers(view: map<Loc, Leaf>, l: Loc, flags: PFlags, f: nat)
    requires l in view
    ensures Mappers(Reprotected(view, l, flags), f) == Mappers(view, f)
  {
    forall k ensures k in Mappers(Reprotected(view, l, flags), f) <==> k in Mappers(view, f) {}
  }

  /** Every mapped frame has the record it had. */
  ghost predicate SameRecords(s: State, view: map<Loc, Leaf>, s': State) {
    |s'.frames| == |s.frames|
    && forall l :: l in view ==> view[l].frame < |s.frames| && s'.frames[view[l].frame] == s.frames[view[l].frame]
  }

  /** unmap_page takes one reference and one sharer, and map_page takes them back: between the two the frame is not
      freed, and it can be mapped. */
  lemma BetweenUnmapAndMap(s: State, tables: set<nat>, view: map<Loc, Leaf>, want: map<Loc, PFlags>, data: map<nat,
      Bytes>,
                           l: Loc, s1: State, tables1: set<nat>)
    requires PagesBook(s, tables, view, want, data) && l in view && view[l].frame < |s.frames|
    requires tables1 <= tables && Returned(Drop(s, view[l].frame), s1, tables - tables1)
    ensures Mappable(s1, tables1, view - {l}, l, view[l].frame)
  {
    CountedTwice(s, tables, view, want, data, l);
    DropEffect(s, view[l].frame);
    assert MappedOk(s, tables, view, view[l].frame);
  }

  lemma CountedTwice(s: State, tables: set<nat>, view: map<Loc, Leaf>, want: map<Loc, PFlags>, data: map<nat, Bytes>,
                     l: Loc)
    requires PagesBook(s, tables, view, want, data) && l in view
    ensures view[l].frame < |s.frames| && view[l].frame !in tables
    ensures var x := s.frames[view[l].frame]; x.kind.Allocated? && x.refs >= 2 && x.shares >= 2 && x.shared
  {
    var f := view[l].frame;
    assert EntryBook(s, view, want, data, l) && MappedOk(s, tables, view, f);
    AtLeastOne(Mappers(view, f), l);
    assert FrameOk(s.frames[f]);
  }

  lemma RemapKeepsRecords(s: State, tables: set<nat>, view: map<Loc, Leaf>, want: map<Loc, PFlags>, data: map<nat,
      Bytes>,
                          l: Loc, s1: State, tables1: set<nat>, n: nat)
    requires PagesBook(s, tables, view, want, data) && l in view && view[l].frame < |s.frames|
    requires Valid(s1) && tables1 <= tables && Returned(Drop(s, view[l].frame), s1, tables - tables1) && n <= |s1.free|
    ensures SameRecords(s, view, Add(AllocN(s1, n), view[l].frame))
  {
    var f := view[l].frame;
    CountedTwice(s, tables, view, want, data, l);
    DropEffect(s, f);
    forall k | k in view
      ensures view[k].frame < |s.frames| && Add(AllocN(s1, n), f).frames[view[k].frame] == s.frames[view[k].frame]
    {
      CountedTwice(s, tables, view, want, data, k);
      AllocNSame(s1, n, view[k].frame);
      OneBack(s.frames[f], s1.frames[f]);
    }
  }

  /** One sharer given up and taken back. */
  lemma OneBack(x: Frame, y: Frame)
    requires x.kind.Allocated? && x.refs >= 2 && x.shares >= 2 && x.shared
    requires y == x.(shared := x.shares - 1 > 1, refs := x.refs - 1, shares := x.shares - 1)
    ensures y.(shared := true, refs := y.refs + 1, shares := y.shares + 1) == x
  {
  }

  /** Mapping a page again with other flags changes nothing else: not what it holds, and not the books. */
  lemma ReprotectPage(s: State, tables: set<nat>, view: map<Loc, Leaf>, want: map<Loc, PFlags>, data: map<nat, Bytes>,
                      l: Loc, flags: PFlags, s': State, tables': set<nat>)
    requires PagesBook(s, tables, view, want, data) && l in view && SameRecords(s, view, s')
    requires Valid(s') && FramesOk(s', tables', Reprotected(view, l, flags))
    ensures PagesBook(s', tables', Reprotected(view, l, flags), want[l := flags], data)
    ensures Contents(Reprotected(view, l, flags), data) == Contents(view, data)
  {
    hide EntryBook, FrameStates.Valid, FramesOk, Contents;
    var view', want' := Reprotected(view, l, flags), want[l := flags];
    forall k | k in view' ensures EntryBook(s', view', want', data, k) {
      assert EntryBook(s, view, want, data, k);
      ReprotectEntry(s, view, want, data, l, flags, s', k);
    }
    ReprotectContents(view, data, l, flags);
  }

  lemma ReprotectEntry(s: State, view: map<Loc, Leaf>, want: map<Loc, PFlags>, data: map<nat, Bytes>,
                       l: Loc, flags: PFlags, s': State, k: Loc)
    requires l in view && k in view && EntryBook(s, view, want, data, k)
    requires |s'.frames| == |s.frames| && view[k].frame < |s.frames|
    requires s'.frames[view[k].frame] == s.frames[view[k].frame]
    ensures EntryBook(s', Reprotected(view, l, flags), want[l := flags], data, k)
  {
    ReprotectedMappers(view, l, flags, view[k].frame);
  }

  lemma ReprotectContents(view: map<Loc, Leaf>, data: map<nat, Bytes>, l: Loc, flags: PFlags)
    requires l in view
    ensures Contents(Reprotected(view, l, flags), data) == Contents(view, data)
  {
  }

  /** A frame taken from the free list is no table, is mapped nowhere and can be mapped. */
  lemma AllocUserFrame(s: State, tables: set<nat>, view: map<Loc, Leaf>, l: Loc)
    requires Valid(s) && FramesOk(s, tables, view) && s.free != [] && s.free[0] < |s.frames|
    ensures FramesOk(Alloc(s), tables, view) && |Alloc(s).free| == |s.free| - 1
    ensures Mappable(Alloc(s), tables, view, l, s.free[0])
  {
    AllocTableFrame(s, tables, view);
    var f := s.free[0];
    assert f in s.free;
    forall k | k in view ensures MappedOk(Alloc(s), tables, view, view[k].frame) && view[k].frame != f {
      assert MappedOk(s, tables, view, view[k].frame);
    }
  }

  // ---- what the operations do to the other places

  /** The part of EntryOk that concerns place `k` carries over when its frame and entry are as before. */
  lemma EntryKept(s: State, view: map<Loc, Leaf>, want: map<Loc, PFlags>, data: map<nat, Bytes>,
                  s': State, view': map<Loc, Leaf>, want': map<Loc, PFlags>, data': map<nat, Bytes>, k: Loc)
    requires k in view && EntryOk(s, view, want, data, k)
    requires k in view' && view'[k] == view[k] && k in want' && want'[k] == want[k]
    requires Mappers(view', view[k].frame) == Mappers(view, view[k].frame)
    requires view[k].frame < |s'.frames| && s'.frames[view[k].frame] == s.frames[view[k].frame]
    requires view[k].frame in data' && data'[view[k].frame] == data[view[k].frame]
    ensures EntryOk(s', view', want', data', k)
  {
  }

  lemma MappersElsewhere(view: map<Loc, Leaf>, l: Loc, leaf: Leaf, g: nat)
    requires leaf.frame != g && (l in view ==> view[l].frame != g)
    ensures Mappers(view[l := leaf], g) == Mappers(view, g) == Mappers(view - {l}, g)
  {
  }

  /** A fresh zeroed page mapped where nothing was mapped. */
  lemma NewPage(s: State, tables: set<nat>, view: map<Loc, Leaf>, want: map<Loc, PFlags>, data: map<nat, Bytes>,
                l: Loc, flags: PFlags, n: nat, tables': set<nat>)
    requires PagesOk(s, tables, view, want, data) && l !in view && s.free != []
    requires s.free[0] < |s.frames| && n <= |Alloc(s).free|
    requires var s' := Add(AllocN(Alloc(s), n), s.free[0]);
      Valid(s') && FramesOk(s', tables', view[l := Leaf(s.free[0], flags)])
    ensures var s' := Add(AllocN(Alloc(s), n), s.free[0]);
      PagesOk(s', tables', view[l := Leaf(s.free[0], flags)], want[l := flags], data[s.free[0] := Zeroes()])
    ensures |Add(AllocN(Alloc(s), n), s.free[0]).free| == |s.free| - 1 - n
    ensures Contents(view[l := Leaf(s.free[0], flags)], data[s.free[0] := Zeroes()])
      == Contents(view, data)[l := Zeroes()]
  {
    var f := s.free[0];
    var s1 := Alloc(s);
    var s2 := AllocN(s1, n);
    var view', want', data' := view[l := Leaf(f, flags)], want[l := flags], data[f := Zeroes()];
    TakeValid(s, f);
    AllocNSame(s1, n, f);
    assert f in s.free;
    forall k | k in view ensures view[k].frame != f && s2.frames[view[k].frame] == s.frames[view[k].frame] {
      assert MappedOk(s, tables, view, view[k].frame);
      AllocNSame(s1, n, view[k].frame);
    }
    var s' := Add(s2, f);
    assert Mappers(view', f) == {l};
    assert s'.frames[f].refs == 2 && s'.frames[f].shares == 2;
    hide Alloc, AllocN, FrameStates.Valid, Add, FramesOk;
    forall k | k in view' ensures EntryOk(s', view', want', data', k) {
      if k != l {
        assert EntryOk(s, view, want, data, k);
        MappersElsewhere(view, l, Leaf(f, flags), view[k].frame);
        EntryKept(s, view, want, data, s', view', want', data', k);
      }
    }
    ContentsAfter(view, data, l, Leaf(f, flags), Zeroes());
  }

  /** Mapping a frame that nothing else maps, with given contents. */
  lemma ContentsAfter(view: map<Loc, Leaf>, data: map<nat, Bytes>, l: Loc, leaf: Leaf, bytes: Bytes)
    requires forall k :: k in view && k != l ==> view[k].frame != leaf.frame
    ensures Contents(view[l := leaf], data[leaf.frame := bytes]) == Contents(view, data)[l := bytes]
  {
  }

  lemma DropEntry(s: State, view: map<Loc, Leaf>, want: map<Loc, PFlags>, data: map<nat, Bytes>,
                  l: Loc, s': State, k: Loc)
    requires l in view && EntryOk(s, view, want, data, l) && k in view && EntryOk(s, view, want, data, k) && k != l
    requires |s'.frames| == |s.frames| && view[l].frame < |s.frames| && view[k].frame < |s.frames|
    requires view[k].frame != view[l].frame ==> s'.frames[view[k].frame] == s.frames[view[k].frame]
    requires var x, y := s.frames[view[l].frame], s'.frames[view[l].frame];
      x.refs > 1 && x.shares > 1 ==> y.refs == x.refs - 1 && y.shares >= x.shares - 1 && y.cow == x.cow
    ensures EntryOk(s', view - {l}, want - {l}, data, k)
  {
    if view[k].frame == view[l].frame {
      MappersRemove(view, l, view[l].frame);
      assert l in Mappers(view, view[l].frame) && k in Mappers(view, view[l].frame);
      TwoMappers(Mappers(view, view[l].frame), l, k);
    } else {
      MappersElsewhere(view, l, view[l], view[k].frame);
      EntryKept(s, view, want, data, s', view - {l}, want - {l}, data, k);
    }
  }

  /** A page that loses its mapping. */
  lemma DropPage(s: State, tables: set<nat>, view: map<Loc, Leaf>, want: map<Loc, PFlags>, data: map<nat, Bytes>,
                 l: Loc, s': State, tables': set<nat>, gone: set<nat>)
    requires PagesOk(s, tables, view, want, data) && l in view
    requires Valid(s') && FramesOk(s', tables', view - {l})
    requires gone <= tables && view[l].frame < |s.frames| && Returned(Drop(s, view[l].frame), s', gone)
    ensures PagesOk(s', tables', view - {l}, want - {l}, data)
    ensures Contents(view - {l}, data) == Contents(view, data) - {l}
  {
    hide FrameStates.Valid, Counted, Mappers, Drop;
    var f := view[l].frame;
    assert MappedOk(s, tables, view, f) && EntryOk(s, view, want, data, l);
    DropEffect(s, f);
    forall k | k in view - {l} ensures EntryOk(s', view - {l}, want - {l}, data, k) {
      assert EntryOk(s, view, want, data, k) && MappedOk(s, tables, view, view[k].frame);
      DropEntry(s, view, want, data, l, s', k);
    }
  }

  lemma TwoMappers(a: set<Loc>, l: Loc, k: Loc)
    requires l in a && k in a && l != k
    ensures |a| >= 2 && forall x :: a != {x}
  {
    SubsetSize({l, k}, a);
  }

  // ---- forking a page

  /** vmm_fork marks the frame and takes a pair of counts for the child's copy ... */
  ghost function ForkMarked(s: State, f: nat): State
    requires f < |s.frames|
  {
    Add(SetCow(s, f, true), f)
  }

  /** ... maps it in the child, where `n` frames go into tables, and maps it again in the parent. */
  ghost function Forked(s: State, f: nat, n: nat): State
    requires f < |s.frames| && n <= |ForkMarked(s, f).free|
  {
    var s2 := Add(AllocN(ForkMarked(s, f), n), f);
    Add(Drop(s2, f), f)
  }

  lemma ForkMarkedEffect(s: State, f: nat)
    requires Valid(s) && f < |s.frames| && s.frames[f].kind.Allocated?
    ensures Valid(ForkMarked(s, f))
    ensures var x := s.frames[f];
      ForkMarked(s, f) == State(s.frames[f := x.(cow := true, shared := true, refs := x.refs + 1,
        shares := x.shares + 1)], s.free)
  {
    ShareValid(s, f);
    AddEffect(SetCow(s, f, true), f);
  }

  lemma ForkedEffect(s: State, f: nat, n: nat)
    requires Valid(s) && f < |s.frames| && s.frames[f].kind.Allocated? && n <= |s.free|
    ensures ForkMarked(s, f).free == s.free && |Forked(s, f, n).free| == |s.free| - n
    ensures |Forked(s, f, n).frames| == |s.frames|
    ensures var x := s.frames[f];
      Forked(s, f, n).frames[f] == x.(cow := true, shared := true, refs := x.refs + 2, shares := x.shares + 2)
    ensures forall g :: 0 <= g < |s.frames| && g != f && !s.frames[g].kind.Free? ==>
      Forked(s, f, n).frames[g] == s.frames[g]
  {
    ForkMarkedEffect(s, f);
    var s1 := ForkMarked(s, f);
    var s2 := AllocN(s1, n);
    forall g | 0 <= g < |s.frames| && !s.frames[g].kind.Free? ensures s2.frames[g] == s1.frames[g] {
      AllocNSame(s1, n, g);
    }
    hide FrameStates.Valid, AllocN, ForkMarked;
    var x := s2.frames[f];
    assert Add(s2, f).frames[f] == x.(shared := true, refs := x.refs + 1, shares := x.shares + 1);
    assert Drop(Add(s2, f), f).frames[f] == x;
  }

  /** Both places map the frame without write access. */
  function ForkView(view: map<Loc, Leaf>, l: Loc, c: Loc, flags: PFlags): map<Loc, Leaf>
    requires l in view
  {
    var leaf := Leaf(view[l].frame, flags.(write := false));
    view[c := leaf][l := leaf]
  }

  /** The pages of a child are still the frames of its parent. */
  ghost predicate Twins(view: map<Loc, Leaf>, parent: nat, child: nat) {
    forall l :: l in view && l.root == child ==>
      Loc(parent, l.page) in view && view[Loc(parent, l.page)].frame == view[l].frame
  }

  lemma TwinsMore(view: map<Loc, Leaf>, parent: nat, child: nat, page: nat, flags: PFlags)
    requires Twins(view, parent, child) && Loc(parent, page) in view
    ensures Twins(ForkView(view, Loc(parent, page), Loc(child, page), flags), parent, child)
  {
  }

  lemma ForkEntry(s: State, view: map<Loc, Leaf>, want: map<Loc, PFlags>, data: map<nat, Bytes>,
                  l: Loc, c: Loc, s': State, k: Loc)
    requires l in view && EntryOk(s, view, want, data, l) && c !in view
    requires k == c || (k in view && EntryOk(s, view, want, data, k))
    requires |s'.frames| == |s.frames| && view[l].frame < |s.frames|
    requires s'.frames[view[l].frame].cow
    requires s'.frames[view[l].frame].refs == s.frames[view[l].frame].refs + 2
    requires s'.frames[view[l].frame].shares == s.frames[view[l].frame].shares + 2
    requires k in view && view[k].frame != view[l].frame ==>
      view[k].frame < |s.frames| && s'.frames[view[k].frame] == s.frames[view[k].frame]
    ensures EntryOk(s', ForkView(view, l, c, want[l]), want[c := want[l]], data, k)
  {
    var f, ro := view[l].frame, want[l].(write := false);
    var view', want' := view[c := Leaf(f, ro)][l := Leaf(f, ro)], want[c := want[l]];
    if k in view && view[k].frame != f {
      MappersElsewhere(view, c, Leaf(f, ro), view[k].frame);
      MappersElsewhere(view[c := Leaf(f, ro)], l, Leaf(f, ro), view[k].frame);
      EntryKept(s, view, want, data, s', view', want', data, k);
    } else {
      assert Mappers(view', f) == Mappers(view, f) + {c};
      if k in view && k != l {
        assert k in Mappers(view, f) && l in Mappers(view, f);
        TwoMappers(Mappers(view, f), k, l);
      }
    }
  }

  lemma ForkContents(view: map<Loc, Leaf>, data: map<nat, Bytes>, l: Loc, c: Loc, flags: PFlags)
    requires l in view && view[l].frame in data && c !in view
    ensures l in Contents(view, data)
    ensures Contents(ForkView(view, l, c, flags), data) == Contents(view, data)[c := Contents(view, data)[l]]
  {
  }

  lemma CopyContents(view: map<Loc, Leaf>, data: map<nat, Bytes>, l: Loc, leaf: Leaf)
    requires l in view && view[l].frame in data
    requires forall k :: k in view && k != l ==> view[k].frame != leaf.frame
    ensures Contents(view[l := leaf], data[leaf.frame := data[view[l].frame]]) == Contents(view, data)
  {
    ContentsAfter(view, data, l, leaf, data[view[l].frame]);
    assert Contents(view, data)[l := data[view[l].frame]] == Contents(view, data);
  }

  /** A page forked from `l` to `c`: the child sees what the parent sees. */
  lemma ForkPage(s: State, tables: set<nat>, view: map<Loc, Leaf>, want: map<Loc, PFlags>, data: map<nat, Bytes>,
                 l: Loc, c: Loc, n: nat, tables': set<nat>)
    requires PagesOk(s, tables, view, want, data) && l in view && c !in view && n <= |s.free|
    requires view[l].frame < |s.frames| && ForkMarked(s, view[l].frame).free == s.free
    requires var s' := Forked(s, view[l].frame, n); Valid(s') && FramesOk(s', tables', ForkView(view, l, c, want[l]))
    ensures PagesOk(Forked(s, view[l].frame, n), tables', ForkView(view, l, c, want[l]), want[c := want[l]], data)
    ensures |Forked(s, view[l].frame, n).free| == |s.free| - n && l in Contents(view, data)
    ensures Contents(ForkView(view, l, c, want[l]), data) == Contents(view, data)[c := Contents(view, data)[l]]
  {
    hide Forked, ForkMarked, FrameStates.Valid, FramesOk, Mappers, AllocN, Add, Drop, Contents, EntryOk;
    var f, view', want' := view[l].frame, ForkView(view, l, c, want[l]), want[c := want[l]];
    EntryFacts(s, tables, view, want, data, l);
    ForkContents(view, data, l, c, want[l]);
    ForkedEffect(s, f, n);
    var s' := Forked(s, f, n);
    forall k | k in view' ensures EntryOk(s', view', want', data, k) {
      if k in view { EntryFacts(s, tables, view, want, data, k); }
      ForkEntry(s, view, want, data, l, c, s', k);
    }
  }

  // ---- copying on a write fault

  /** The frames after the copy: vmm_pf_handler drops the old frame once, map_page once more. */
  ghost function Copied(s: State, f: nat): State
    requires s.free != [] && s.free[0] < |s.frames| && f < |s.frames|
  {
    Add(Drop(Drop(Alloc(s), f), f), s.free[0])
  }

  lemma CopiedEffect(s: State, f: nat)
    requires Valid(s) && s.free != [] && f < |s.frames| && s.frames[f].kind.Allocated? && s.frames[f].refs >= 2
    ensures s.free[0] < |s.frames| && s.free[0] != f
    ensures Copied(s, f).frames[s.free[0]] == Frame(Allocated, true, false, 2, 2)
    ensures |Copied(s, f).free| == |s.free| - if s.frames[f].refs > 2 then 1 else 0
    ensures |Copied(s, f).frames| == |s.frames|
    ensures s.frames[f].refs > 2 && s.frames[f].shares > 2 ==>
      var x := s.frames[f];
      Copied(s, f).frames[f] == x.(shared := x.shares > 3, refs := x.refs - 2, shares := x.shares - 2)
    ensures forall g :: 0 <= g < |s.frames| && g != f && g != s.free[0] ==> Copied(s, f).frames[g] == s.frames[g]
  {
    var g := s.free[0];
    assert g in s.free;
    TakeValid(s, g);
    DropEffect(Alloc(s), f);
    DropEffect(Drop(Alloc(s), f), f);
    AddEffect(Drop(Drop(Alloc(s), f), f), g);
  }

  lemma CopyEntry(s: State, view: map<Loc, Leaf>, want: map<Loc, PFlags>, data: map<nat, Bytes>,
                  l: Loc, g: nat, s': State, k: Loc)
    requires l in view && EntryOk(s, view, want, data, l) && k in view && EntryOk(s, view, want, data, k)
    requires forall j :: j in view ==> view[j].frame != g
    requires |s'.frames| == |s.frames| && g < |s.frames| && s'.frames[g] == Frame(Allocated, true, false, 2, 2)
    requires view[l].frame < |s.frames|
    requires var x, y := s.frames[view[l].frame], s'.frames[view[l].frame];
      x.refs > 2 && x.shares > 2 ==> y.refs == x.refs - 2 && y.shares == x.shares - 2 && y.cow == x.cow
    requires view[k].frame != view[l].frame ==>
      view[k].frame < |s.frames| && s'.frames[view[k].frame] == s.frames[view[k].frame]
    ensures EntryOk(s', view[l := Leaf(g, want[l])], want, data[g := data[view[l].frame]], k)
  {
    var f := view[l].frame;
    var view', data' := view[l := Leaf(g, want[l])], data[g := data[f]];
    if k == l {
      assert Mappers(view', g) == {l};
    } else if view[k].frame == f {
      assert Mappers(view', f) == Mappers(view, f) - {l};
      assert k in Mappers(view, f) && l in Mappers(view, f);
      TwoMappers(Mappers(view, f), k, l);
    } else {
      MappersElsewhere(view, l, Leaf(g, want[l]), view[k].frame);
      EntryKept(s, view, want, data, s', view', want, data', k);
    }
  }

  /** Copying a shared page for one of its users changes nobody's contents, and lets that user write. */
  lemma CopyPage(s: State, tables: set<nat>, view: map<Loc, Leaf>, want: map<Loc, PFlags>, data: map<nat, Bytes>,
                 l: Loc)
    requires PagesOk(s, tables, view, want, data) && l in view && s.free != []
    requires s.free[0] < |s.frames| && view[l].frame < |s.frames| && view[l].frame in data
    requires var g := s.free[0];
      Valid(Copied(s, view[l].frame)) && FramesOk(Copied(s, view[l].frame), tables, view[l := Leaf(g, want[l])])
    ensures var g := s.free[0];
      PagesOk(Copied(s, view[l].frame), tables, view[l := Leaf(g, want[l])], want, data[g := data[view[l].frame]])
    ensures Contents(view[l := Leaf(s.free[0], want[l])], data[s.free[0] := data[view[l].frame]])
      == Contents(view, data)
    ensures |Copied(s, view[l].frame).free| == |s.free| - if s.frames[view[l].frame].refs > 2 then 1 else 0
  {
    hide Copied, FrameStates.Valid, FramesOk, EntryOk, Mappers, Add, Drop, Alloc, Contents;
    var f, g := view[l].frame, s.free[0];
    var s', view', data' := Copied(s, f), view[l := Leaf(g, want[l])], data[g := data[f]];
    assert g in s.free;
    forall k | k in view ensures view[k].frame != g && view[k].frame < |s.frames| {
      EntryFacts(s, tables, view, want, data, k);
    }
    CopyContents(view, data, l, Leaf(g, want[l]));
    MappedStaysAllocated(s, tables, view, want, data, l);
    EntryFacts(s, tables, view, want, data, l);
    CopiedEffect(s, f);
    forall k | k in view' ensures EntryOk(s', view', want, data', k) {
      EntryFacts(s, tables, view, want, data, k);
      CopyEntry(s, view, want, data, l, g, s', k);
    }
  }

  /** Between the steps of a fork the frames stay in order: the marked frame can be mapped in the child,
      and mapped again in the parent. */
  lemma ForkFrames(s: State, tables: set<nat>, view: map<Loc, Leaf>, l: Loc, c: Loc)
    requires Valid(s) && FramesOk(s, tables, view) && l in view && c !in view
    ensures view[l].frame < |s.frames| && s.frames[view[l].frame].kind.Allocated?
    ensures var s1 := ForkMarked(s, view[l].frame);
      Valid(s1) && s1.free == s.free && FramesOk(s1, tables, view) && Mappable(s1, tables, view, c, view[l].frame)
  {
    var f := view[l].frame;
    assert MappedOk(s, tables, view, f);
    ForkMarkedEffect(s, f);
    forall k | k in view ensures MappedOk(ForkMarked(s, f), tables, view, view[k].frame) {
      assert MappedOk(s, tables, view, view[k].frame);
    }
  }

  lemma MappedTwiceIsMappable(s: State, tables: set<nat>, view: map<Loc, Leaf>, l: Loc, k: Loc)
    requires Valid(s) && FramesOk(s, tables, view) && l in view && k in view && l != k && view[l].frame == view[k].frame
    ensures Mappable(s, tables, view, l, view[l].frame)
  {
    assert MappedOk(s, tables, view, view[l].frame);
    assert l in Mappers(view, view[l].frame) && k in Mappers(view, view[l].frame);
    TwoMappers(Mappers(view, view[l].frame), l, k);
  }

  /** A mapped frame has a reference to spare for each place that maps it. */
  lemma EnoughLeft(s: State, tables: set<nat>, view: map<Loc, Leaf>, want: map<Loc, PFlags>, data: map<nat, Bytes>,
                   l: Loc)
    requires PagesBook(s, tables, view, want, data) && l in view
    ensures var f := view[l].frame; f < |s.frames| && s.frames[f].refs - 1 >= |Mappers(view, f)|
  {
    assert EntryBook(s, view, want, data, l) && l in Mappers(view, view[l].frame);
    AtLeastOne(Mappers(view, view[l].frame), l);
  }

  /** After vmm_pf_handler has dropped the old frame once, its mapping still counts. */
  lemma CopyFrames(s: State, tables: set<nat>, view: map<Loc, Leaf>, want: map<Loc, PFlags>, data: map<nat, Bytes>,
                   l: Loc)
    requires PagesOk(s, tables, view, want, data) && l in view && s.free != [] && s.free[0] < |s.frames|
    ensures view[l].frame < |s.frames| && Alloc(s).frames[view[l].frame].kind.Allocated?
    ensures var s1 := Drop(Alloc(s), view[l].frame);
      Valid(s1) && FramesOk(s1, tables, view) && Mappable(s1, tables, view, l, s.free[0])
  {
    var f, g := view[l].frame, s.free[0];
    BookAndIsolation(s, tables, view, want, data);
    EnoughLeft(s, tables, view, want, data, l);
    CountedTwice(s, tables, view, want, data, l);
    assert g in s.free;
    TakeValid(s, g);
    DropEffect(Alloc(s), f);
    hide EntryBook, EntryOk, Mappers;
    var s1 := Drop(Alloc(s), f);
    forall k | k in view ensures MappedOk(s1, tables, view, view[k].frame) && view[k].frame != g {
      assert MappedOk(s, tables, view, view[k].frame);
    }
  }

  /** Pages do not notice frames that none of them maps. */
  lemma OtherFrames(s: State, tables: set<nat>, view: map<Loc, Leaf>, want: map<Loc, PFlags>, data: map<nat, Bytes>,
                    s': State, tables': set<nat>)
    requires PagesOk(s, tables, view, want, data) && Valid(s') && FramesOk(s', tables', view)
    requires |s'.frames| == |s.frames|
    requires forall l :: l in view ==> view[l].frame < |s.frames| && s'.frames[view[l].frame] == s.frames[view[l].frame]
    ensures PagesOk(s', tables', view, want, data)
  {
    forall l | l in view ensures EntryOk(s', view, want, data, l) {
      assert EntryOk(s, view, want, data, l);
    }
  }

  // ---- who shares after each of these

  lemma SameShared(s: State, view: map<Loc, Leaf>, s': State)
    requires SameRecords(s, view, s')
    ensures SharedPages(s', view) == SharedPages(s, view)
  {
    forall l ensures l in SharedPages(s', view) <==> l in SharedPages(s, view) {
    }
  }

  lemma NewPageShared(s: State, tables: set<nat>, view: map<Loc, Leaf>, l: Loc, flags: PFlags, n: nat)
    requires Valid(s) && FramesOk(s, tables, view) && s.free != [] && s.free[0] < |s.frames| && n <= |Alloc(s).free|
    ensures SharedPages(Add(AllocN(Alloc(s), n), s.free[0]), view[l := Leaf(s.free[0], flags)]) <= SharedPages(s, view)
  {
    var f, s1 := s.free[0], Alloc(s);
    var s' := Add(AllocN(s1, n), f);
    assert f in s.free;
    TakeValid(s, f);
    AllocNSame(s1, n, f);
    forall k | k in view ensures view[k].frame < |s.frames| && s'.frames[view[k].frame] == s.frames[view[k].frame] {
      assert MappedOk(s, tables, view, view[k].frame);
      AllocNSame(s1, n, view[k].frame);
    }
    hide FrameStates.Valid, FramesOk, Alloc, AllocN;
    SharedLess(s, view, s', view[l := Leaf(f, flags)], {});
  }

  lemma DropPageShared(s: State, tables: set<nat>, view: map<Loc, Leaf>, want: map<Loc, PFlags>,
                       data: map<nat, Bytes>, l: Loc, s': State, gone: set<nat>)
    requires PagesOk(s, tables, view, want, data) && l in view && view[l].frame < |s.frames|
    requires gone <= tables && Returned(Drop(s, view[l].frame), s', gone)
    ensures SharedPages(s', view - {l}) <= SharedPages(s, view)
  {
    MappedStaysAllocated(s, tables, view, want, data, l);
    forall k | k in view ensures view[k].frame < |s.frames| && view[k].frame !in gone {
      assert MappedOk(s, tables, view, view[k].frame);
    }
    DropEffect(s, view[l].frame);
    hide FrameStates.Valid, FramesOk, Drop, EntryOk;
    SharedLess(s, view, s', view - {l}, {});
  }

  lemma ForkPageShared(s: State, tables: set<nat>, view: map<Loc, Leaf>, want: map<Loc, PFlags>,
                       data: map<nat, Bytes>, l: Loc, c: Loc, n: nat, flags: PFlags)
    requires PagesOk(s, tables, view, want, data) && l in view && n <= |s.free|
    requires view[l].frame < |s.frames| && ForkMarked(s, view[l].frame).free == s.free
    ensures SharedPages(Forked(s, view[l].frame, n), ForkView(view, l, c, flags)) <= SharedPages(s, view) + {l, c}
  {
    hide Forked, ForkMarked, FramesOk, EntryOk;
    var f := view[l].frame;
    BookAndIsolation(s, tables, view, want, data);
    EntryFacts(s, tables, view, want, data, l);
    ForkedEffect(s, f, n);
    var s', view' := Forked(s, f, n), ForkView(view, l, c, flags);
    forall k | k in view' && k !in {l, c} && MarkedShared(s', view'[k].frame)
      ensures k in view && MarkedShared(s, view[k].frame)
    {
      EntryFacts(s, tables, view, want, data, k);
      if view[k].frame == f { TwiceMapped(s, tables, view, want, data, k, l); }
    }
    SharedLess(s, view, s', view', {l, c});
  }

  lemma CopyPageShared(s: State, tables: set<nat>, view: map<Loc, Leaf>, want: map<Loc, PFlags>,
                       data: map<nat, Bytes>, l: Loc, flags: PFlags)
    requires PagesOk(s, tables, view, want, data) && l in view && s.free != []
    requires s.free[0] < |s.frames| && view[l].frame < |s.frames|
    ensures SharedPages(Copied(s, view[l].frame), view[l := Leaf(s.free[0], flags)]) <= SharedPages(s, view)
  {
    hide Copied, FramesOk, EntryOk;
    var f, g := view[l].frame, s.free[0];
    BookAndIsolation(s, tables, view, want, data);
    MappedStaysAllocated(s, tables, view, want, data, l);
    EntryFacts(s, tables, view, want, data, l);
    CopiedEffect(s, f);
    assert g in s.free;
    var s', view' := Copied(s, f), view[l := Leaf(g, flags)];
    forall k | k in view' && MarkedShared(s', view'[k].frame) ensures k in view && MarkedShared(s, view[k].frame) {
      if k != l {
        EntryFacts(s, tables, view, want, data, k);
        if view[k].frame == f { TwiceMapped(s, tables, view, want, data, k, l); }
      }
    }
    SharedLess(s, view, s', view', {});
  }

  /** The copy is not marked copy-on-write. */
  lemma CopyIsPlain(s: State, tables: set<nat>, view: map<Loc, Leaf>, want: map<Loc, PFlags>, data: map<nat, Bytes>,
                    l: Loc)
    requires PagesOk(s, tables, view, want, data) && l in view && s.free != []
    requires s.free[0] < |s.frames| && view[l].frame < |s.frames|
    ensures s.free[0] < |Copied(s, view[l].frame).frames| && !Copied(s, view[l].frame).frames[s.free[0]].cow
  {
    hide Copied, FramesOk, EntryOk;
    MappedStaysAllocated(s, tables, view, want, data, l);
    EntryFacts(s, tables, view, want, data, l);
    CopiedEffect(s, view[l].frame);
    assert s.free[0] in s.free;
  }

  lemma AllocOther(s: State, tables: set<nat>, view: map<Loc, Leaf>)
    requires Valid(s) && FramesOk(s, tables, view) && s.free != [] && s.free[0] < |s.frames|
    ensures forall l :: l in view ==>
      view[l].frame < |s.frames| && Alloc(s).frames[view[l].frame] == s.frames[view[l].frame]
  {
    assert s.free[0] in s.free;
    forall l | l in view ensures view[l].frame < |s.frames| && view[l].frame != s.free[0] {
      assert MappedOk(s, tables, view, view[l].frame);
    }
  }

  lemma SparedLength(s: State, tables: set<nat>, view: map<Loc, Leaf>, r: Region, s': State)
    requires Spared(s, tables, view, r, s')
    ensures |s'.frames| == |s.frames|
  {
  }

  /** Tearing down a root that maps nothing concerns no page. */
  lemma SparedPages(s: State, tables: set<nat>, view: map<Loc, Leaf>, r: Region, s': State)
    requires Spared(s, tables, view, r, s') && FramesOk(s, tables, view)
    requires forall l :: l in view ==> l.root != r.root
    ensures forall l :: l in view ==> view[l].frame < |s.frames| && s'.frames[view[l].frame] == s.frames[view[l].frame]
  {
    forall l | l in view ensures view[l].frame < |s.frames| && s'.frames[view[l].frame] == s.frames[view[l].frame] {
      assert MappedOk(s, tables, view, view[l].frame);
      assert !MappedIn(view, r, view[l].frame);
    }
  }
}
