/** kmalloc and kfree of kernel/src/mm/kheap.c on top of the frame allocator. */
module Kheaps {
  import opened Seqs
  import opened HeapBlocks
  import FrameStates
  import FrameAllocator

  /** A run of frames that the heap holds the only reference to. */
  ghost predicate Held(frames: seq<FrameStates.Frame>, p: nat, n: nat) {
    p + n <= |frames| && forall x :: p <= x < p + n ==> frames[x].kind.Allocated? && frames[x].refs == 1
  }

  ghost predicate Owned(frames: seq<FrameStates.Frame>, slabs: map<nat, Slab>) {
    forall p :: p in slabs ==> Held(frames, p, slabs[p].npages)
  }

  /** Frames that were free belong to no slab, and taking them disturbs none. */
  lemma TakenApart(s: FrameStates.State, s': FrameStates.State, slabs: map<nat, Slab>, p: nat, n: nat)
    requires Owned(s.frames, slabs) && FrameStates.FreeRun(s, p, n) && n >= 1 && |s'.frames| == |s.frames|
    requires forall q :: q in slabs ==> slabs[q].npages >= 1
    requires forall x :: 0 <= x < |s.frames| ==>
      s'.frames[x] == if p <= x < p + n then FrameStates.FRESH else s.frames[x]
    ensures Owned(s'.frames, slabs) && Held(s'.frames, p, n) && p !in slabs
    ensures forall q :: q in slabs ==> q + slabs[q].npages <= p || p + n <= q
  {
    forall q | q in slabs ensures Held(s'.frames, q, slabs[q].npages) && (q + slabs[q].npages <= p || p + n <= q) {
      assert Held(s.frames, q, slabs[q].npages);
      var m, x := slabs[q].npages, if q < p then p else q;
      assert p <= x < p + n ==> s.frames[x].kind.Free?;
      assert q <= x < q + m ==> s.frames[x].kind.Allocated?;
    }
  }

  lemma StillOwned(fs: seq<FrameStates.Frame>, fs': seq<FrameStates.Frame>, slabs: map<nat, Slab>, p: nat, n: nat)
    requires Owned(fs, slabs) && |fs'| == |fs| && forall x :: 0 <= x < |fs| && !(p <= x < p + n) ==> fs'[x] == fs[x]
    requires forall q :: q in slabs ==> q + slabs[q].npages <= p || p + n <= q
    ensures Owned(fs', slabs)
  {
    forall q | q in slabs ensures Held(fs', q, slabs[q].npages) {
      assert Held(fs, q, slabs[q].npages);
    }
  }

  // ---- the frames of the heap and of everybody else

  /** Where the slabs begin and how many pages they have. */
  ghost function Extents(slabs: map<nat, Slab>): map<nat, nat> {
    map p | p in slabs :: slabs[p].npages
  }

  ghost predicate Within(e: map<nat, nat>, x: nat) {
    exists p :: p in e && p <= x < p + e[p]
  }

  /** A frame that joins the heap was free, one that leaves it is free again, and any other is as it was. */
  ghost predicate FrameTraded(e: map<nat, nat>, f: FrameStates.Frame, e': map<nat, nat>, f': FrameStates.Frame, x: nat)
  {
    if Within(e, x) == Within(e', x) then f' == f
    else if Within(e', x) then f.kind.Free? && f' == FrameStates.FRESH
    else f'.kind.Free?
  }

  ghost predicate Traded(e: map<nat, nat>, s: FrameStates.State, e': map<nat, nat>, s': FrameStates.State) {
    && |s'.frames| == |s.frames|
    && forall x :: 0 <= x < |s.frames| ==> FrameTraded(e, s.frames[x], e', s'.frames[x], x)
  }

  lemma NothingTraded(e: map<nat, nat>, s: FrameStates.State)
    ensures Traded(e, s, e, s)
  {
  }

  /** The frames of a run have been allocated, and no other frame has changed. */
  ghost predicate Fresh(s: FrameStates.State, s': FrameStates.State, p: nat, n: nat) {
    && FrameStates.FreeRun(s, p, n) && |s'.frames| == |s.frames|
    && forall x :: 0 <= x < |s.frames| ==> s'.frames[x] == if p <= x < p + n then FrameStates.FRESH else s.frames[x]
  }

  /** The frames of a run are free, and no other frame has changed. */
  ghost predicate Given(s: FrameStates.State, s': FrameStates.State, p: nat, n: nat) {
    && |s'.frames| == |s.frames|
    && forall x :: 0 <= x < |s.frames| ==>
      if p <= x < p + n then s'.frames[x].kind.Free? else s'.frames[x] == s.frames[x]
  }

  lemma RunJoins(slabs: map<nat, Slab>, s: FrameStates.State, s': FrameStates.State, p: nat, slab: Slab)
    requires Fresh(s, s', p, slab.npages) && p !in slabs
    requires forall q :: q in slabs ==> q + slabs[q].npages <= p || p + slab.npages <= q
    ensures Traded(Extents(slabs), s, Extents(slabs[p := slab]), s')
  {
    var e, e' := Extents(slabs), Extents(slabs[p := slab]);
    forall x | 0 <= x < |s.frames| ensures FrameTraded(e, s.frames[x], e', s'.frames[x], x) {
      WithinMore(e, p, slab.npages, x);
      assert e' == e[p := slab.npages];
    }
  }

  lemma RunLeaves(slabs: map<nat, Slab>, s: FrameStates.State, s': FrameStates.State, p: nat)
    requires p in slabs && Given(s, s', p, slabs[p].npages)
    requires forall q :: q in slabs && q != p ==> q + slabs[q].npages <= p || p + slabs[p].npages <= q
    ensures Traded(Extents(slabs), s, Extents(slabs - {p}), s')
  {
    var e, e' := Extents(slabs), Extents(slabs - {p});
    forall x | 0 <= x < |s.frames| ensures FrameTraded(e, s.frames[x], e', s'.frames[x], x) {
      WithinMore(e', p, slabs[p].npages, x);
      assert e == e'[p := slabs[p].npages];
    }
  }

  lemma WithinMore(e: map<nat, nat>, p: nat, n: nat, x: nat)
    requires p !in e
    ensures Within(e[p := n], x) <==> Within(e, x) || p <= x < p + n
  {
    var e' := e[p := n];
    if Within(e, x) {
      var q :| q in e && q <= x < q + e[q];
      assert q in e' && e'[q] == e[q];
    }
    assert p in e' && e'[p] == n;
  }

  function Rounded(size: nat): (r: nat)
    ensures r % 16 == 0 && size <= r < size + 16
  {
    (size + 15) / 16 * 16
  }

  /** The pages of a block too large for any cache: no more than hold a header, some padding and the block. */
  function BigPages(size: nat): (n: nat)
    ensures (n - 1) * 4096 < HEADER + 16 + size <= n * 4096
  {
    (HEADER + 16 + size + 4095) / 4096
  }

  /** There is no block of this size to be had: its cache has no slab with a free object and no page is left for one,
      or, for a large block, no run of free frames is long enough. */
  ghost predicate Exhausted(g: Shadow, s: FrameStates.State, size: nat) {
    var k := CacheIndex(Rounded(size));
    if k == 8 then FrameStates.RunStart(s, BigPages(Rounded(size))) < 0
    else |g.lists| == 8 && g.lists[k] == [] && s.free == []
  }

  /** The cache of this size has a slab with a free object. */
  ghost predicate NeedsNoPage(g: Shadow, size: nat) {
    var k := CacheIndex(Rounded(size));
    k < 8 && |g.lists| == 8 && g.lists[k] != []
  }

  datatype Op = Malloc(size: nat) | Free(ptr: nat)

  function Sizes(live: map<nat, Block>): map<nat, nat> {
    map ptr | ptr in live :: live[ptr].size
  }

  /** What a call means for the blocks in use and their sizes. */
  function Effect(m: map<nat, nat>, op: Op, r: nat): map<nat, nat> {
    match op
    case Malloc(n) => if r == 0 then m else m[r := n]
    case Free(ptr) => m - {ptr}
  }

  /** The blocks in use and their sizes after a run of calls that began with `m`. */
  function InUse(m: map<nat, nat>, ops: seq<Op>, results: seq<nat>): map<nat, nat>
    requires |ops| == |results|
  {
    if ops == [] then m
    else Effect(InUse(m, ops[..|ops|-1], results[..|ops|-1]), ops[|ops|-1], results[|ops|-1])
  }

  // ---- whole runs

  /** The heap, its books and all frames at one moment. */
  datatype Moment = Moment(heap: Heap, shadow: Shadow, frames: FrameStates.State)

  ghost predicate InOrder(m: Moment) {
    && AtRest(m.heap, m.shadow) && Conserved(m.heap.slabs, m.shadow, 0)
    && FrameStates.Valid(m.frames) && Owned(m.frames.frames, m.heap.slabs)
  }

  /** The most pages a call takes. */
  function Price(op: Op): nat {
    match op
    case Malloc(n) => if n == 0 then 0 else if n <= 2048 then 1 else BigPages(Rounded(n))
    case Free(_) => 0
  }

  /** What one call does: the blocks in use change as it means, frames are traded only with the free list, and a block
      is refused, without any effect, exactly when there is none. */
  ghost predicate HeapStep(m: Moment, op: Op, r: nat, m': Moment) {
    && Sizes(m'.shadow.live) == Effect(Sizes(m.shadow.live), op, r)
    && Traded(Extents(m.heap.slabs), m.frames, Extents(m'.heap.slabs), m'.frames)
    && |m'.frames.free| >= |m.frames.free| - Price(op)
    && (op.Malloc? && r != 0 ==> r !in m.shadow.live)
    && (op.Malloc? ==> (r == 0 <==> op.size == 0 || Exhausted(m.shadow, m.frames, op.size)))
    && (op.Malloc? && r == 0 ==> m' == m)
    && (op.Malloc? && NeedsNoPage(m.shadow, op.size) ==> m'.frames == m.frames)
  }

  ghost predicate HeapRun(trace: seq<Moment>, ops: seq<Op>, results: seq<nat>) {
    && |trace| == |ops| + 1 && |results| == |ops|
    && (forall i :: 0 <= i < |trace| ==> InOrder(trace[i]))
    && (forall i :: 0 <= i < |ops| ==> HeapStep(trace[i], ops[i], results[i], trace[i+1]))
  }

  lemma HeapRunMore(trace: seq<Moment>, ops: seq<Op>, i: nat, results: seq<nat>, r: nat, m: Moment)
    requires i < |ops| && HeapRun(trace, ops[..i], results) && InOrder(m) && HeapStep(trace[i], ops[i], r, m)
    ensures HeapRun(trace + [m], ops[..i+1], results + [r])
  {
    hide InOrder, HeapStep;
    var trace', results' := trace + [m], results + [r];
    assert forall k :: 0 <= k < |trace'| ==> trace'[k] == if k <= i then trace[k] else m;
    forall k | 0 <= k < i + 1 ensures HeapStep(trace'[k], ops[..i+1][k], results'[k], trace'[k+1]) {
      if k < i { assert HeapStep(trace[k], ops[..i][k], results[k], trace[k+1]); }
    }
  }

  /** The blocks in use are those handed out and not yet freed. */
  lemma {:induction false} InUseThroughout(trace: seq<Moment>, ops: seq<Op>, results: seq<nat>, n: nat)
    requires HeapRun(trace, ops, results) && n <= |ops|
    ensures Sizes(trace[n].shadow.live) == InUse(Sizes(trace[0].shadow.live), ops[..n], results[..n])
  {
    hide InOrder, Sizes, Effect, Traded, Exhausted, Price;
    if n > 0 {
      InUseThroughout(trace, ops, results, n - 1);
      assert HeapStep(trace[n-1], ops[n-1], results[n-1], trace[n-1+1]);
      assert ops[..n][..n-1] == ops[..n-1] && results[..n][..n-1] == results[..n-1];
    }
  }

  function TotalPrice(ops: seq<Op>): nat {
    if ops == [] then 0 else Price(ops[0]) + TotalPrice(ops[1..])
  }

  /** With pages for all calls at the start, no request of at most 2048 bytes is refused. */
  lemma {:induction false} SmallNeverRefused(trace: seq<Moment>, ops: seq<Op>, results: seq<nat>, i: nat)
    requires HeapRun(trace, ops, results) && i <= |ops| && |trace[i].frames.free| >= TotalPrice(ops[i..])
    ensures forall k :: i <= k < |ops| && ops[k].Malloc? && 0 < ops[k].size <= 2048 ==> results[k] != 0
    decreases |ops| - i
  {
    if i < |ops| {
      hide InOrder, Sizes, Effect, Traded, FrameStates.RunStart, BigPages;
      assert HeapStep(trace[i], ops[i], results[i], trace[i+1]);
      assert ops[i..][1..] == ops[i+1..];
      SmallNeverRefused(trace, ops, results, i + 1);
    }
  }

  // ---- what a run gives back

  /** No large slab, and of each cache at most one slab, with nothing in use. */
  ghost predicate Tidy(slabs: map<nat, Slab>) {
    && (forall p :: p in slabs ==> Idle(slabs[p]) && slabs[p].npages == 1)
    && (forall p, q :: p in slabs && q in slabs && slabs[p].cacheIndex == slabs[q].cacheIndex ==> p == q)
    && |slabs| <= 8
  }

  /** A frame that was not the heap's is as it was, unless the heap has it now, and then it was free. */
  ghost predicate Borrowed(m0: Moment, m: Moment, x: nat)
    requires x < |m0.frames.frames|
  {
    && |m.frames.frames| == |m0.frames.frames|
    && if Within(Extents(m.heap.slabs), x) then m0.frames.frames[x].kind.Free?
       else m.frames.frames[x] == m0.frames.frames[x]
  }

  /** Frames come back as they were; with nothing in use the heap is tidy, and one that began empty holds no frame but
      those of its idle slabs. */
  ghost predicate Returned(m0: Moment, m: Moment) {
    && (forall x :: 0 <= x < |m0.frames.frames| && !Within(Extents(m0.heap.slabs), x) ==> Borrowed(m0, m, x))
    && (m.shadow.live == map[] ==> Tidy(m.heap.slabs))
    && (m.shadow.live == map[] && m0.heap.slabs == map[] ==>
      |m.frames.free| + |m.heap.slabs| == |m0.frames.free|)
  }

  lemma {:induction false} BorrowedThroughout(trace: seq<Moment>, ops: seq<Op>, results: seq<nat>, n: nat, x: nat)
    requires HeapRun(trace, ops, results) && n <= |ops|
    requires x < |trace[0].frames.frames| && !Within(Extents(trace[0].heap.slabs), x)
    ensures Borrowed(trace[0], trace[n], x)
  {
    hide Within, Extents, HeapOk, Conserved, Owned, Effect, Exhausted, Price, Sizes, NeedsNoPage;
    if n > 0 {
      BorrowedThroughout(trace, ops, results, n - 1, x);
      assert HeapStep(trace[n-1], ops[n-1], results[n-1], trace[n-1+1]);
      assert InOrder(trace[0]) && InOrder(trace[n]);
      var m, m' := trace[n-1], trace[n];
      assert FrameTraded(Extents(m.heap.slabs), m.frames.frames[x], Extents(m'.heap.slabs), m'.frames.frames[x], x);
    }
  }

  lemma RunReturns(trace: seq<Moment>, ops: seq<Op>, results: seq<nat>)
    requires HeapRun(trace, ops, results)
    ensures Returned(trace[0], trace[|ops|])
  {
    hide HeapStep, HeapOk, Within, Extents, Borrowed, Owned, Conserved, FrameStates.Valid;
    var m0, m := trace[0], trace[|ops|];
    forall x | 0 <= x < |m0.frames.frames| && !Within(Extents(m0.heap.slabs), x) ensures Borrowed(m0, m, x) {
      BorrowedThroughout(trace, ops, results, |ops|, x);
    }
    assert InOrder(m0) && InOrder(m);
    if m.shadow.live == map[] {
      NothingInUse(m.heap, m.shadow);
      if m0.heap.slabs == map[] { FramesConserved(m0, m); }
    }
  }

  /** Every frame that was free is free again or the page of an idle slab. */
  lemma FramesConserved(m0: Moment, m: Moment)
    requires FrameStates.Valid(m0.frames) && FrameStates.Valid(m.frames) && m0.heap.slabs == map[]
    requires Tidy(m.heap.slabs) && Owned(m.frames.frames, m.heap.slabs)
    requires forall x :: 0 <= x < |m0.frames.frames| && !Within(Extents(m0.heap.slabs), x) ==> Borrowed(m0, m, x)
    ensures |m.frames.free| + |m.heap.slabs| == |m0.frames.free|
  {
    SlabsInside(m0, m);
    hide Within, Extents, Borrowed, Tidy, Owned;
    forall x: nat
      ensures x in m0.frames.free <==> x in m.frames.free || x in m.heap.slabs.Keys
      ensures !(x in m.frames.free && x in m.heap.slabs.Keys)
    {
      if x < |m0.frames.frames| { FrameConserved(m0, m, x); }
    }
    PartSizes(m0.frames.free, m.frames.free, m.heap.slabs.Keys);
    assert |m.heap.slabs| == |m.heap.slabs.Keys|;
  }

  lemma SlabsInside(m0: Moment, m: Moment)
    requires FrameStates.Valid(m0.frames) && m0.heap.slabs == map[]
    requires Tidy(m.heap.slabs) && Owned(m.frames.frames, m.heap.slabs)
    requires forall x :: 0 <= x < |m0.frames.frames| && !Within(Extents(m0.heap.slabs), x) ==> Borrowed(m0, m, x)
    ensures |m.frames.frames| == |m0.frames.frames| && forall p :: p in m.heap.slabs ==> p < |m0.frames.frames|
  {
    assert !Within(Extents(m0.heap.slabs), 0);
    assert Borrowed(m0, m, 0);
    forall p | p in m.heap.slabs ensures p < |m0.frames.frames| {
      assert Held(m.frames.frames, p, m.heap.slabs[p].npages);
    }
  }

  lemma FrameConserved(m0: Moment, m: Moment, x: nat)
    requires FrameStates.Valid(m0.frames) && FrameStates.Valid(m.frames) && m0.heap.slabs == map[]
    requires Tidy(m.heap.slabs) && Owned(m.frames.frames, m.heap.slabs) && x < |m0.frames.frames|
    requires !Within(Extents(m0.heap.slabs), x) ==> Borrowed(m0, m, x)
    ensures x in m0.frames.free <==> x in m.frames.free || x in m.heap.slabs
    ensures !(x in m.frames.free && x in m.heap.slabs)
  {
    assert !Within(Extents(m0.heap.slabs), x);
    OnePageEach(m.heap.slabs, x);
    if x in m.heap.slabs { assert Held(m.frames.frames, x, m.heap.slabs[x].npages); }
  }

  lemma OnePageEach(slabs: map<nat, Slab>, x: nat)
    requires forall p :: p in slabs ==> slabs[p].npages == 1
    ensures Within(Extents(slabs), x) <==> x in slabs
  {
    var e := Extents(slabs);
    if Within(e, x) {
      var p :| p in e && p <= x < p + e[p];
      assert p == x;
    }
    if x in slabs { assert x in e && x <= x < x + e[x]; }
  }

  class Kheap {
    const pmm: FrameAllocator.Pmm
    var slabs: map<nat, Slab>
    var links: map<nat, nat>
    var caches: seq<Cache>
    ghost var shadow: Shadow

    ghost function State(): Heap
      reads this`slabs, this`links, this`caches
    {
      Heap(slabs, links, caches)
    }

    ghost function Now(): Moment
      reads this`slabs, this`links, this`caches, this`shadow, pmm, pmm.db
    {
      Moment(State(), shadow, pmm.Abs())
    }

    ghost predicate PagesHeld()
      reads this`slabs, pmm, pmm.db
    {
      pmm.Valid() && Owned(pmm.Abs().frames, slabs)
    }

    ghost predicate Valid()
      reads this, pmm, pmm.db
    {
      AtRest(State(), shadow) && Conserved(slabs, shadow, 0) && PagesHeld()
    }

    /** kheap_init: eight empty caches. */
    constructor (pmm: FrameAllocator.Pmm)
      requires pmm.Valid()
      ensures Valid() && this.pmm == pmm && shadow.live == map[]
    {
      this.pmm := pmm;
      slabs, links := map[], map[];
      caches := seq(8, k requires 0 <= k < 8 => Cache(SizeOf(k), 0, 0));
      shadow := Shadow(map[], seq(8, k => []), map[]);
      new;
      forall k | 0 <= k < 8 ensures CacheOk(slabs, k, caches[k], shadow.lists[k], 0, false) {
        assert shadow.lists[k] == [];
      }
    }

    /** pmm_alloc_pages; 0 stands for failure. */
    method TakePages(n: nat) returns (p: nat)
      requires PagesHeld() && n >= 1 && forall q :: q in slabs ==> slabs[q].npages >= 1
      modifies pmm, pmm.db
      ensures PagesHeld()
      ensures p != 0 ==> Held(pmm.Abs().frames, p, n) && p !in slabs
      ensures p != 0 ==> forall q :: q in slabs ==> q + slabs[q].npages <= p || p + n <= q
      ensures p == 0 <==> FrameStates.RunStart(old(pmm.Abs()), n) < 0
      ensures p == 0 ==> pmm.Abs() == old(pmm.Abs())
      ensures p != 0 ==> Fresh(old(pmm.Abs()), pmm.Abs(), p, n) && |pmm.Abs().free| >= |old(pmm.Abs()).free| - n
    {
      hide FrameStates.Valid, FrameAllocator.Pmm.Sound;
      ghost var was := pmm.Abs();
      var page := pmm.AllocPages(n);
      if page.Null? {
        return 0;
      }
      p := page.pfn;
      FrameStates.RunTaken(was, n);
      TakenApart(was, pmm.Abs(), slabs, p, n);
      FrameStates.RoomTaken(was, pmm.Abs(), p, n);
    }

    /** slab_destroy for a slab that has been taken out of the books. */
    method ReleasePages(p: nat, n: nat)
      requires PagesHeld() && Held(pmm.Abs().frames, p, n)
      requires forall q :: q in slabs ==> q + slabs[q].npages <= p || p + n <= q
      modifies pmm, pmm.db
      ensures PagesHeld()
      ensures Given(old(pmm.Abs()), pmm.Abs(), p, n) && |pmm.Abs().free| >= |old(pmm.Abs()).free|
    {
      hide FrameStates.Valid, FrameAllocator.Pmm.Sound;
      ghost var fs := pmm.Abs().frames;
      for i := 0 to n
        invariant pmm.Valid() && |pmm.Abs().frames| == |fs|
        invariant forall x :: 0 <= x < |fs| && !(p <= x < p + i) ==> pmm.Abs().frames[x] == fs[x]
        invariant forall x :: p <= x < p + i ==> pmm.Abs().frames[x].kind.Free?
      {
        pmm.Release(p + i);
      }
      StillOwned(fs, pmm.Abs().frames, slabs, p, n);
      FrameStates.RoomGained(old(pmm.Abs()), pmm.Abs(), {});
    }

    /** The smallest cache whose objects are large enough; 8 if there is none. */
    method CacheFor(size: nat) returns (k: nat)
      requires |caches| == 8 && forall j :: 0 <= j < 8 ==> caches[j].objectSize == SizeOf(j)
      ensures k == CacheIndex(size)
    {
      k := 0;
      while k < 8
        invariant k <= 8 && forall j :: 0 <= j < k ==> SizeOf(j) < size
      {
        if size <= caches[k].objectSize {
          return;
        }
        k := k + 1;
      }
    }

    /** The loop of slab_create: the objects are threaded from the last to the first. */
    method ThreadObjects(p: nat, k: nat) returns (freeList: nat, ghost f: seq<nat>)
      requires k < 8
      modifies this`links
      ensures SmallOk(links, p, Slab(0, freeList, SizeOf(k), Capacity(k), Capacity(k), k, 1), f) && |f| == Capacity(k)
      ensures forall a :: a in old(links) && a / 4096 != p ==> a in links && links[a] == old(links)[a]
    {
      hide Slot;
      freeList, f := 0, [];
      for i := 0 to Capacity(k)
        invariant |f| == i && (forall j :: 0 <= j < |f| ==> f[j] < i)
        invariant SmallOk(links, p, Slab(0, freeList, SizeOf(k), Capacity(k), |f|, k, 1), f)
        invariant forall a :: a in old(links) && a / 4096 != p ==> a in links && links[a] == old(links)[a]
      {
        PushSlab(links, p, Slab(0, freeList, SizeOf(k), Capacity(k), |f|, k, 1), f, i);
        SlotInside(p, k, i);
        links := links[Slot(p, k, i) := freeList];
        freeList, f := Slot(p, k, i), [i] + f;
      }
    }

    /** slab_create: a page of free objects, which goes on no list yet. */
    method SlabCreate(k: nat) returns (p: nat)
      requires Valid() && k < 8
      modifies this`slabs, this`links, this`shadow, pmm, pmm.db
      ensures p == 0 <==> old(pmm.Abs()).free == []
      ensures p == 0 ==> Valid() && State() == old(State()) && shadow == old(shadow) && pmm.Abs() == old(pmm.Abs())
      ensures p != 0 ==> PagesHeld() && HeapOk(State(), shadow, p, false) && p in slabs && slabs[p].cacheIndex == k
      ensures p != 0 ==> Balanced(slabs, shadow, p)
      ensures p != 0 ==> slabs[p].freeCount > 0 && shadow.live == old(shadow.live) && caches == old(caches)
      ensures p != 0 ==> Traded(old(Extents(slabs)), old(pmm.Abs()), Extents(slabs), pmm.Abs())
      ensures p != 0 ==> |pmm.Abs().free| >= |old(pmm.Abs()).free| - 1
    {
      hide FrameStates.Valid, FrameAllocator.Pmm.Sound, Held, HeapOk, FrameAllocator.Pmm.Abs, Fresh, Traded, Extents,
           Conserved, Balanced;
      NonEmptyRuns();
      p := TakePages(1);
      if p == 0 {
        return;
      }
      ghost var h, g := State(), shadow;
      RestFacts();
      var freeList, f := ThreadObjects(p, k);
      var s := Slab(0, freeList, SizeOf(k), Capacity(k), Capacity(k), k, 1);
      RunJoins(slabs, old(pmm.Abs()), pmm.Abs(), p, s);
      NewSlab(h, g, p, s, links, f);
      NewBalanced(slabs, shadow, p, s, links, f);
      slabs := slabs[p := s];
      shadow := g.(free := g.free[p := f]);
    }

    lemma RestFacts()
      requires AtRest(State(), shadow)
      ensures |caches| == 8 && |shadow.lists| == 8 && shadow.free.Keys == slabs.Keys && 0 !in slabs
    {
    }

    lemma NonEmptyRuns()
      requires AtRest(State(), shadow)
      ensures forall q :: q in slabs ==> slabs[q].npages >= 1
    {
      forall q | q in slabs ensures slabs[q].npages >= 1 {
        assert SlabOk(links, q, slabs[q], shadow.free[q]);
      }
    }

    /** cache_add_slab */
    method CacheAdd(p: nat)
      requires HeapOk(State(), shadow, p, false) && p in slabs && slabs[p].cacheIndex < 8 && PagesHeld()
      requires Balanced(slabs, shadow, p)
      modifies this`slabs, this`caches, this`shadow
      ensures HeapOk(State(), shadow, p, true) && PagesHeld() && Balanced(slabs, shadow, p) && p in slabs
        && slabs[p] == old(slabs[p]).(next := slabs[p].next)
      ensures shadow.live == old(shadow.live) && shadow.free == old(shadow.free) && links == old(links)
      ensures Extents(slabs) == old(Extents(slabs))
    {
      hide HeapOk, Held, Balanced;
      Enlist(State(), shadow, p);
      ListCount(p);
      var k := slabs[p].cacheIndex;
      slabs := slabs[p := slabs[p].(next := caches[k].slabs)];
      caches := caches[k := caches[k].(slabs := p, slabCount := caches[k].slabCount + 1)];
      shadow := shadow.(lists := shadow.lists[k := [p] + shadow.lists[k]]);
      RelinkedBalanced(old(slabs), old(shadow), slabs, shadow, p);
    }

    lemma ListCount(p: nat)
      requires exists on :: HeapOk(State(), shadow, p, on)
      ensures |caches| == 8 && |shadow.lists| == 8
    {
    }

    /** cache_remove_slab: the walk finds the slab, since it is on the list. */
    method CacheRemove(p: nat)
      requires HeapOk(State(), shadow, p, true) && p in slabs && slabs[p].cacheIndex < 8 && PagesHeld()
      requires Balanced(slabs, shadow, p)
      modifies this`slabs, this`caches, this`shadow
      ensures HeapOk(State(), shadow, p, false) && PagesHeld() && p in slabs && slabs[p] == old(slabs[p]).(next := 0)
      ensures Balanced(slabs, shadow, p)
      ensures shadow.live == old(shadow.live) && shadow.free == old(shadow.free) && links == old(links)
      ensures Extents(slabs) == old(Extents(slabs))
    {
      hide HeapOk, Held, FrameAllocator.Pmm.Abs, FrameAllocator.Pmm.Valid, Balanced, Relinked;
      var k := slabs[p].cacheIndex;
      var prev, i := FindInList(p, k);
      ghost var h := State();
      ListCount(p);
      Delist(State(), shadow, p, i);
      KeepsRuns(p, prev);
      var next := slabs[p].next;
      if prev != 0 {
        slabs := slabs[prev := slabs[prev].(next := next)];
      } else {
        caches := caches[k := caches[k].(slabs := next)];
      }
      slabs := slabs[p := slabs[p].(next := 0)];
      if caches[k].slabCount > 0 {
        caches := caches[k := caches[k].(slabCount := caches[k].slabCount - 1)];
      }
      shadow := shadow.(lists := shadow.lists[k := shadow.lists[k][..i] + shadow.lists[k][i+1..]]);
      assert State() == Delisted(h, p, prev);
      RelinkedBalanced(old(slabs), old(shadow), slabs, shadow, p);
    }

    /** Relinking moves no pages. */
    lemma KeepsRuns(p: nat, prev: nat)
      requires PagesHeld() && p in slabs && slabs[p].cacheIndex < |caches| && (prev != 0 ==> prev in slabs)
      requires caches[slabs[p].cacheIndex].slabCount > 0
      ensures Owned(pmm.Abs().frames, Delisted(State(), p, prev).slabs)
      ensures Extents(Delisted(State(), p, prev).slabs) == Extents(slabs)
      ensures Relinked(slabs, Delisted(State(), p, prev).slabs)
    {
      hide Held, FrameAllocator.Pmm.Abs, FrameAllocator.Pmm.Valid;
    }

    method FindInList(p: nat, k: nat) returns (prev: nat, ghost i: nat)
      requires HeapOk(State(), shadow, p, true) && p in slabs && slabs[p].cacheIndex == k < 8
      ensures |shadow.lists| == 8 && i < |shadow.lists[k]| && shadow.lists[k][i] == p
      ensures prev == if i > 0 then shadow.lists[k][i-1] else 0
    {
      hide SlabOk, LiveOk, RunsApart, NoDuplicates;
      ghost var l := shadow.lists[k];
      assert CacheOk(slabs, k, caches[k], l, p, true);
      assert Belongs(slabs, k, p, p, true);
      ghost var at :| 0 <= at < |l| && l[at] == p;
      var cur := caches[k].slabs;
      prev, i := 0, 0;
      while cur != p
        invariant i <= at && cur == l[i] && prev == if i > 0 then l[i-1] else 0
        decreases at - i
      {
        assert l[i] in slabs && slabs[l[i]].next == At(l, i + 1);
        prev, cur, i := cur, slabs[cur].next, i + 1;
      }
    }

    // ---- kmalloc

    /** The walk along a cache's slabs for one with a free object: the first one has it. */
    method SlabWithRoom(k: nat) returns (p: nat)
      requires Valid() && k < 8
      ensures p == 0 <==> shadow.lists[k] == []
      ensures p != 0 ==> p in slabs && slabs[p].cacheIndex == k && slabs[p].freeCount > 0
    {
      hide HeapOk;
      ListOf(k);
      ghost var l, i := shadow.lists[k], 0;
      p := caches[k].slabs;
      while p != 0 && slabs[p].freeList == 0
        invariant i <= |l| && p == At(l, i) && forall j :: 0 <= j < i ==> slabs[l[j]].freeList == 0
        decreases |l| - i
      {
        p, i := slabs[p].next, i + 1;
      }
      forall j | 0 <= j < |l|
        ensures slabs[l[j]].freeList != 0 && slabs[l[j]].cacheIndex == k && slabs[l[j]].freeCount > 0 && l[j] != 0
      {
        ListedHasRoom(State(), shadow, k, j);
        RestFacts();
      }
    }

    lemma ListOf(k: nat)
      requires Valid() && k < 8
      ensures |caches| == 8 && |shadow.lists| == 8 && ListOk(slabs, caches[k].slabs, shadow.lists[k])
    {
      assert CacheOk(slabs, k, caches[k], shadow.lists[k], 0, false);
    }

    /** Takes the first free object of a slab that is on its list. */
    method TakeObject(p: nat, size: nat) returns (obj: nat)
      requires HeapOk(State(), shadow, p, true) && PagesHeld() && p in slabs && slabs[p].cacheIndex < 8
      requires slabs[p].freeCount > 0 && size <= SizeOf(slabs[p].cacheIndex) && Balanced(slabs, shadow, p)
      modifies this`slabs, this`caches, this`shadow
      ensures Valid() && obj != 0 && obj !in old(shadow.live)
      ensures obj in shadow.live && shadow.live[obj].size == size && shadow.live - {obj} == old(shadow.live)
      ensures Extents(slabs) == old(Extents(slabs))
    {
      hide HeapOk, Held, Slot, FrameAllocator.Pmm.Valid, FrameAllocator.Pmm.Abs, Balanced,
           Conserved, Extents;
      FirstFree(State(), shadow, p, p, true);
      Pop(State(), shadow, p, size);
      PopBalanced(State(), shadow, p, size);
      ghost var g := shadow;
      obj := slabs[p].freeList;
      slabs := slabs[p := slabs[p].(freeList := links[obj], freeCount := slabs[p].freeCount - 1)];
      SameExtents(old(slabs), slabs);
      shadow := g.(free := g.free[p := g.free[p][1..]], live := g.live[obj := Block(size, g.free[p][0])]);
      if slabs[p].freeCount == 0 {
        CacheRemove(p);
      }
      Working(State(), shadow, p);
      RestFacts();
      Settle(slabs, shadow, p);
    }

    method Kmalloc(size0: nat) returns (ptr: nat)
      requires Valid()
      modifies this, pmm, pmm.db
      ensures Valid()
      ensures ptr == 0 ==> Now() == old(Now())
      ensures Traded(old(Extents(slabs)), old(pmm.Abs()), Extents(slabs), pmm.Abs())
      ensures |pmm.Abs().free| >= |old(pmm.Abs()).free| - Price(Malloc(size0))
      ensures ptr == 0 <==> size0 == 0 || Exhausted(old(shadow), old(pmm.Abs()), size0)
      ensures NeedsNoPage(old(shadow), size0) ==> pmm.Abs() == old(pmm.Abs())
      ensures ptr != 0 ==> ptr !in old(shadow.live) && ptr in shadow.live && shadow.live[ptr].size == size0
      ensures ptr != 0 ==> shadow.live - {ptr} == old(shadow.live)
    {
      hide HeapOk, Held, Slot, FrameAllocator.Pmm.Valid, FrameAllocator.Pmm.Abs, Capacity, FrameStates.RunStart,
           BigPages, Traded, Extents, Conserved, Balanced;
      NothingTraded(Extents(slabs), pmm.Abs());
      if size0 == 0 {
        return 0;
      }
      var size := Rounded(size0);
      RestFacts();
      CacheSizes();
      var k := CacheFor(size);
      if k == 8 {
        assert SizeOf(7) < size;
        ptr := KmallocBig(size0, size);
        return;
      }
      var p := SlabWithRoom(k);
      if p == 0 {
        p := SlabCreate(k);
        if p == 0 {
          return 0;
        }
        CacheAdd(p);
      } else {
        Working(State(), shadow, p);
        Unsettle(slabs, shadow, p);
      }
      ptr := TakeObject(p, size0);
    }

    lemma CacheSizes()
      requires Valid()
      ensures |caches| == 8 && forall j :: 0 <= j < 8 ==> caches[j].objectSize == SizeOf(j)
    {
      forall j | 0 <= j < 8 ensures caches[j].objectSize == SizeOf(j) {
        assert CacheOk(slabs, j, caches[j], shadow.lists[j], 0, false);
      }
    }

    /** A block too large for any cache gets pages of its own. */
    method KmallocBig(size0: nat, size: nat) returns (ptr: nat)
      requires Valid() && 2048 < size == Rounded(size0)
      modifies this`slabs, this`shadow, pmm, pmm.db
      ensures Valid()
      ensures ptr == 0 ==> Now() == old(Now())
      ensures ptr != 0 ==> Traded(old(Extents(slabs)), old(pmm.Abs()), Extents(slabs), pmm.Abs())
      ensures |pmm.Abs().free| >= |old(pmm.Abs()).free| - BigPages(size)
      ensures ptr == 0 <==> FrameStates.RunStart(old(pmm.Abs()), BigPages(size)) < 0
      ensures ptr != 0 ==> ptr !in old(shadow.live) && ptr in shadow.live && shadow.live[ptr].size == size0
      ensures ptr != 0 ==> shadow.live - {ptr} == old(shadow.live)
    {
      hide HeapOk, Held, Slot, FrameAllocator.Pmm.Valid, FrameAllocator.Pmm.Abs, FrameStates.RunStart, Fresh, Traded,
           Extents, Conserved;
      var npages := BigPages(size);
      NonEmptyRuns();
      var p := TakePages(npages);
      if p == 0 {
        return 0;
      }
      ghost var h, g := State(), shadow;
      RestFacts();
      NotYet(p);
      var s := Slab(0, 0, if size > 0xFFFF then 0xFFFF else size, 1, 0, BIG, npages);
      RunJoins(slabs, old(pmm.Abs()), pmm.Abs(), p, s);
      NewSlab(h, g, p, s, links, []);
      BigBalanced(slabs, shadow, p, s, Block(size0, 0));
      slabs := slabs[p := s];
      shadow := g.(free := g.free[p := []]);
      Working(State(), shadow, p);
      BigBlock(State(), shadow, p, size0);
      ptr := p * 4096 + HEADER;
      shadow := shadow.(live := shadow.live[ptr := Block(size0, 0)]);
    }

    lemma NotYet(p: nat)
      requires AtRest(State(), shadow) && p !in slabs
      ensures p * 4096 + HEADER !in shadow.live
    {
      var ptr := p * 4096 + HEADER;
      assert ptr / 4096 == p;
      forall q | q in shadow.live ensures q != ptr {
        assert LiveOk(slabs, shadow.free, q, shadow.live[q]);
      }
    }

    // ---- kfree

    /** slab_destroy of a slab that is on no list and holds no block. */
    method SlabDestroy(p: nat)
      requires HeapOk(State(), shadow, p, false) && PagesHeld() && p in slabs && Conserved(slabs, shadow, p)
      requires NoBlocks(shadow.live, p)
      modifies this`slabs, this`shadow, pmm, pmm.db
      ensures Valid() && shadow.live == old(shadow.live) && slabs == old(slabs) - {p}
      ensures Given(old(pmm.Abs()), pmm.Abs(), p, old(slabs[p].npages))
      ensures Traded(old(Extents(slabs)), old(pmm.Abs()), Extents(slabs), pmm.Abs())
      ensures |pmm.Abs().free| >= |old(pmm.Abs()).free|
    {
      RunsFrom(p);
      hide HeapOk, Held, FrameAllocator.Pmm.Valid, FrameAllocator.Pmm.Abs, Given, Traded, Extents, Conserved,
           NoBlocks;
      HeldHere(p);
      DropSlab(State(), shadow, p);
      RestFactsAt(p);
      DropBalanced(slabs, shadow, p);
      var npages := slabs[p].npages;
      slabs := slabs - {p};
      shadow := shadow.(free := shadow.free - {p});
      ReleasePages(p, npages);
      RunLeaves(old(slabs), old(pmm.Abs()), pmm.Abs(), p);
    }

    lemma RestFactsAt(p: nat)
      requires HeapOk(State(), shadow, p, false)
      ensures 0 !in slabs
    {
    }

    lemma HeldHere(p: nat)
      requires PagesHeld() && p in slabs
      ensures Held(pmm.Abs().frames, p, slabs[p].npages) && Owned(pmm.Abs().frames, slabs - {p})
    {
    }

    lemma RunsFrom(p: nat)
      requires HeapOk(State(), shadow, p, false) && p in slabs
      ensures forall q :: q in slabs && q != p ==> q + slabs[q].npages <= p || p + slabs[p].npages <= q
    {
    }

    /** Frees a block in use; nothing happens for the null pointer. */
    method Kfree(ptr: nat)
      requires Valid() && (ptr != 0 ==> ptr in shadow.live)
      modifies this, pmm, pmm.db
      ensures Valid() && shadow.live == old(shadow.live) - {ptr}
      ensures Traded(old(Extents(slabs)), old(pmm.Abs()), Extents(slabs), pmm.Abs())
      ensures |pmm.Abs().free| >= |old(pmm.Abs()).free|
    {
      hide HeapOk, Held, Slot, FrameAllocator.Pmm.Valid, FrameAllocator.Pmm.Abs, SlabOk, Traded, Extents, Given,
           Conserved;
      NothingTraded(Extents(slabs), pmm.Abs());
      if ptr == 0 {
        NoNull();
        return;
      }
      BlockPlace(State(), shadow, ptr);
      var p := ptr / 4096;
      if slabs[p].cacheIndex == BIG || slabs[p].capacity == 1 {
        OneBlockSlab(ptr);
        ForgetBlock(State(), shadow, p, false, ptr);
        Unsettle(slabs, shadow, p);
        ForgottenElsewhere(ptr);
        shadow := shadow.(live := shadow.live - {ptr});
        SlabDestroy(p);
        return;
      }
      Working(State(), shadow, p);
      RestFacts();
      Unsettle(slabs, shadow, p);
      SmallCache(p);
      if slabs[p].freeCount == 0 {
        CacheAdd(p);
      }
      FreeObject(ptr);
      if slabs[p].freeCount == slabs[p].capacity && caches[slabs[p].cacheIndex].slabCount > 1 {
        AllFree(p);
        CacheRemove(p);
        SlabDestroy(p);
        return;
      }
      KeptIdle(p);
      Working(State(), shadow, p);
      RestFacts();
      Settle(slabs, shadow, p);
    }

    lemma ForgottenElsewhere(ptr: nat)
      requires Balanced(slabs, shadow, ptr / 4096)
      ensures Conserved(slabs, shadow.(live := shadow.live - {ptr}), ptr / 4096)
    {
      ConservedElsewhere(slabs, shadow, slabs, shadow.(live := shadow.live - {ptr}), ptr / 4096);
    }

    /** A slab that is kept with nothing in use is the only such one of its cache. */
    lemma KeptIdle(p: nat)
      requires HeapOk(State(), shadow, p, true) && p in slabs && slabs[p].cacheIndex < 8
      requires slabs[p].freeCount < slabs[p].capacity || caches[slabs[p].cacheIndex].slabCount <= 1
      ensures forall q :: q in slabs && q != p ==> !BothIdle(slabs[p], slabs[q])
    {
      hide HeapOk;
      forall q | q in slabs && q != p ensures !BothIdle(slabs[p], slabs[q]) {
        if BothIdle(slabs[p], slabs[q]) { OnlyIdle(State(), shadow, p, q); }
      }
    }

    method FreeObject(ptr: nat)
      requires ptr in shadow.live && ptr / 4096 in slabs && slabs[ptr / 4096].cacheIndex < 8
      requires HeapOk(State(), shadow, ptr / 4096, true) && PagesHeld() && Balanced(slabs, shadow, ptr / 4096)
      modifies this`slabs, this`links, this`shadow
      ensures HeapOk(State(), shadow, ptr / 4096, true) && PagesHeld() && shadow.live == old(shadow.live) - {ptr}
      ensures ptr / 4096 in slabs && slabs[ptr / 4096].cacheIndex == old(slabs[ptr / 4096].cacheIndex) && |caches| == 8
      ensures 0 < slabs[ptr / 4096].freeCount <= slabs[ptr / 4096].capacity && Extents(slabs) == old(Extents(slabs))
      ensures Balanced(slabs, shadow, ptr / 4096)
    {
      hide HeapOk, Held, Slot, FrameAllocator.Pmm.Valid, FrameAllocator.Pmm.Abs, Balanced, Extents;
      SameExtents(slabs, Pushed(State(), ptr).slabs);
      Push(State(), shadow, ptr);
      PushBalanced(State(), shadow, ptr);
      var p := ptr / 4096;
      ListCount(p);
      ghost var h, g := State(), shadow;
      links := links[ptr := slabs[p].freeList];
      slabs := slabs[p := slabs[p].(freeList := ptr)];
      if slabs[p].freeCount < slabs[p].capacity {
        slabs := slabs[p := slabs[p].(freeCount := slabs[p].freeCount + 1)];
      }
      shadow := g.(free := g.free[p := [g.live[ptr].index] + g.free[p]], live := g.live - {ptr});
      assert State() == Pushed(h, ptr);
    }

    lemma SameExtents(was: map<nat, Slab>, now: map<nat, Slab>)
      requires now.Keys == was.Keys && forall q :: q in was ==> now[q].npages == was[q].npages
      ensures Extents(now) == Extents(was)
    {
    }

    lemma NoNull()
      requires Valid()
      ensures 0 !in shadow.live
    {
      if 0 in shadow.live {
        BlockPlace(State(), shadow, 0);
      }
    }

    /** A slab with room for one object: it holds only this block, has nothing free, and so is on no list. */
    lemma OneBlockSlab(ptr: nat)
      requires Valid() && ptr in shadow.live && ptr / 4096 in slabs
      requires slabs[ptr / 4096].cacheIndex == BIG || slabs[ptr / 4096].capacity == 1
      ensures HeapOk(State(), shadow, ptr / 4096, false)
      ensures NoBlocks(shadow.live - {ptr}, ptr / 4096)
      ensures forall k :: 0 <= k < 8 ==> ptr / 4096 !in shadow.lists[k]
    {
      var p := ptr / 4096;
      assert SlabOk(links, p, slabs[p], shadow.free[p]);
      OnlyBlock(State(), shadow, ptr, ptr);
      forall q | q in shadow.live - {ptr} ensures q / 4096 != p {
        OnlyBlock(State(), shadow, ptr, q);
      }
      Working(State(), shadow, p);
      forall k | 0 <= k < 8 ensures p !in shadow.lists[k] {
        assert CacheOk(slabs, k, caches[k], shadow.lists[k], 0, false);
        assert p in shadow.lists[k] <==> Belongs(slabs, k, p, 0, false);
      }
    }

    lemma SmallCache(p: nat)
      requires Valid() && p in slabs && slabs[p].cacheIndex != BIG
      ensures slabs[p].cacheIndex < 8
    {
      assert SlabOk(links, p, slabs[p], shadow.free[p]);
    }

    lemma AllFree(p: nat)
      requires HeapOk(State(), shadow, p, true) && p in slabs && slabs[p].cacheIndex < 8
        && slabs[p].freeCount == slabs[p].capacity
      ensures NoBlocks(shadow.live, p)
    {
      forall q | q in shadow.live ensures q / 4096 != p {
        FullIsEmpty(State(), shadow, p, p, true, q);
      }
    }

    // ---- whole runs

    /** Any sequence of calls, where only blocks in use are freed: after every call the books are in order, the blocks
        in use are those handed out and not yet freed, no block is handed out twice, and a block is refused exactly
        when there is none, which a small one never is while pages are left. */
    method Run(ops: seq<Op>, held0: set<nat>) returns (results: seq<nat>, ghost trace: seq<Moment>)
      requires Valid() && held0 == shadow.live.Keys
      modifies this, pmm, pmm.db
      ensures Valid() && HeapRun(trace, ops, results) && trace[0] == old(Now()) && trace[|ops|] == Now()
      ensures Sizes(shadow.live) == InUse(Sizes(old(shadow.live)), ops, results)
      ensures forall i :: 0 <= i <= |ops| ==>
        Sizes(trace[i].shadow.live) == InUse(Sizes(old(shadow.live)), ops[..i], results[..i])
      ensures forall i :: 0 <= i < |ops| && ops[i].Malloc? && results[i] != 0 ==>
        results[i] !in InUse(Sizes(old(shadow.live)), ops[..i], results[..i])
      ensures TotalPrice(ops) <= |old(pmm.Abs()).free| ==>
        forall i :: 0 <= i < |ops| && ops[i].Malloc? && 0 < ops[i].size <= 2048 ==> results[i] != 0
      ensures Returned(old(Now()), Now())
    {
      hide HeapOk, InUse, HeapStep, Sizes, FrameAllocator.Pmm.Abs, FrameStates.Valid, Owned, Conserved,
           Returned;
      results, trace := [], [Now()];
      var held := held0;
      assert ops[..0] == [];
      for i := 0 to |ops|
        invariant Valid() && held == shadow.live.Keys
        invariant HeapRun(trace, ops[..i], results) && trace[0] == old(Now()) && trace[i] == Now()
      {
        var r;
        r, held := Perform(ops[i], held);
        HeapRunMore(trace, ops, i, results, r, Now());
        results, trace := results + [r], trace + [Now()];
      }
      assert ops[..|ops|] == ops && results[..|ops|] == results && ops[0..] == ops;
      forall i | 0 <= i <= |ops|
        ensures Sizes(trace[i].shadow.live) == InUse(Sizes(old(shadow.live)), ops[..i], results[..i])
      {
        InUseThroughout(trace, ops, results, i);
      }
      forall i | 0 <= i < |ops| && ops[i].Malloc? && results[i] != 0
        ensures results[i] !in InUse(Sizes(old(shadow.live)), ops[..i], results[..i])
      {
        NotInUse(trace, ops, results, i);
      }
      if TotalPrice(ops) <= |old(pmm.Abs()).free| { SmallNeverRefused(trace, ops, results, 0); }
      RunReturns(trace, ops, results);
    }

    lemma NotInUse(trace: seq<Moment>, ops: seq<Op>, results: seq<nat>, i: nat)
      requires HeapRun(trace, ops, results) && i < |ops| && ops[i].Malloc? && results[i] != 0
      ensures results[i] !in Sizes(trace[i].shadow.live)
    {
      hide InOrder, Traded, Effect, Exhausted;
      assert HeapStep(trace[i], ops[i], results[i], trace[i+1]);
    }

    method Perform(op: Op, held: set<nat>) returns (r: nat, held': set<nat>)
      requires Valid() && held == shadow.live.Keys
      modifies this, pmm, pmm.db
      ensures Valid() && held' == shadow.live.Keys && HeapStep(old(Now()), op, r, Now())
    {
      hide HeapOk, Kheap.PagesHeld, Exhausted, FrameAllocator.Pmm.Abs, Traded, Extents, BigPages, Conserved;
      held' := held;
      NothingTraded(Extents(slabs), pmm.Abs());
      match op
      case Malloc(n) =>
        r := Kmalloc(n);
        if r != 0 {
          held' := held + {r};
        }
      case Free(ptr) =>
        r := 0;
        if ptr in held {
          Kfree(ptr);
          held' := held - {ptr};
        }
    }
  }
}
