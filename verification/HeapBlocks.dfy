/** The slab heap of kernel/src/mm/kheap.c as values: slab headers at page bases, free lists threaded through the free
    objects, one list of slabs per object size, and the blocks in use. */
module HeapBlocks {
  import opened Seqs

  const BIG := 0xFFFF
  const HEADER := 32

  /** A slab header. A slab is named by its page number; 0 is the null pointer. */
  datatype Slab = Slab(next: nat, freeList: nat, objectSize: nat, capacity: nat, freeCount: nat, cacheIndex: nat,
    npages: nat)

  datatype Cache = Cache(objectSize: nat, slabs: nat, slabCount: nat)

  /** A block in use: what was asked for, and its place in its slab. */
  datatype Block = Block(size: nat, index: nat)

  function SizeOf(k: nat): (s: nat)
    requires k < 8
    ensures s >= 16 && s % 16 == 0
  {
    if k == 0 then 16 else if k == 1 then 32 else if k == 2 then 64 else if k == 3 then 128
    else if k == 4 then 256 else if k == 5 then 512 else if k == 6 then 1024 else 2048
  }

  /** The smallest cache whose objects are large enough; 8 when there is none. */
  function CacheIndex(size: nat): (k: nat)
    ensures k <= 8 && (k < 8 ==> size <= SizeOf(k)) && forall j :: 0 <= j < k ==> SizeOf(j) < size
  {
    if size <= 16 then 0 else if size <= 32 then 1 else if size <= 64 then 2 else if size <= 128 then 3
    else if size <= 256 then 4 else if size <= 512 then 5 else if size <= 1024 then 6 else if size <= 2048 then 7 else 8
  }

  function Capacity(k: nat): (c: nat)
    requires k < 8
    ensures c >= 1
  {
    4064 / SizeOf(k)
  }

  /** As many objects as fit behind the header, and no fewer. */
  lemma CapacityExact(k: nat, n: nat)
    requires k < 8
    ensures HEADER + n * SizeOf(k) <= 4096 <==> n <= Capacity(k)
  {
    if k == 0 {} else if k == 1 {} else if k == 2 {} else if k == 3 {} else if k == 4 {} else if k == 5 {}
      else if k == 6 {} else {}
  }

  /** The address of object `i` of a slab. */
  function Slot(p: nat, k: nat, i: nat): nat
    requires k < 8
  {
    p * 4096 + HEADER + i * SizeOf(k)
  }

  lemma SlotInside(p: nat, k: nat, i: nat)
    requires k < 8 && i < Capacity(k)
    ensures p * 4096 + HEADER <= Slot(p, k, i) && Slot(p, k, i) + SizeOf(k) <= p * 4096 + 4096
    ensures Slot(p, k, i) % 16 == 0 && Slot(p, k, i) / 4096 == p
  {
    if k == 0 {} else if k == 1 {} else if k == 2 {} else if k == 3 {} else if k == 4 {} else if k == 5 {}
      else if k == 6 {} else {}
  }

  lemma SlotsApart(p: nat, k: nat, i: nat, j: nat)
    requires k < 8 && i < j
    ensures Slot(p, k, i) + SizeOf(k) <= Slot(p, k, j)
  {
    if k == 0 {} else if k == 1 {} else if k == 2 {} else if k == 3 {} else if k == 4 {} else if k == 5 {}
      else if k == 6 {} else {}
  }

  lemma SlotInjective(p: nat, k: nat, i: nat, q: nat, j: nat)
    requires k < 8 && i < Capacity(k) && j < Capacity(k) && Slot(p, k, i) == Slot(q, k, j)
    ensures p == q && i == j
  {
    hide Slot;
    SlotInside(p, k, i);
    SlotInside(q, k, j);
    if i < j { SlotsApart(p, k, i, j); }
    if j < i { SlotsApart(p, k, j, i); }
  }

  // ---- free lists

  function SlotAt(p: nat, k: nat, f: seq<nat>, i: nat): nat
    requires k < 8
  {
    if i < |f| then Slot(p, k, f[i]) else 0
  }

  ghost predicate ObjectLinked(links: map<nat, nat>, p: nat, k: nat, f: seq<nat>, i: nat)
    requires k < 8 && i < |f|
  {
    Slot(p, k, f[i]) in links && links[Slot(p, k, f[i])] == SlotAt(p, k, f, i + 1)
  }

  /** A slab of small objects, with the free ones in list order. */
  ghost predicate SmallOk(links: map<nat, nat>, p: nat, s: Slab, f: seq<nat>)
    requires s.cacheIndex < 8
  {
    && s.objectSize == SizeOf(s.cacheIndex) && s.capacity == Capacity(s.cacheIndex) && s.npages == 1
      && s.freeCount == |f|
    && NoDuplicates(f) && (forall i :: 0 <= i < |f| ==> f[i] < Capacity(s.cacheIndex))
    && s.freeList == SlotAt(p, s.cacheIndex, f, 0)
    && (forall i :: 0 <= i < |f| ==> ObjectLinked(links, p, s.cacheIndex, f, i))
  }

  ghost predicate SlabOk(links: map<nat, nat>, p: nat, s: Slab, f: seq<nat>) {
    if s.cacheIndex < 8 then SmallOk(links, p, s, f)
    else s.cacheIndex == BIG && s.capacity == 1 && s.freeCount == 0 && f == [] && s.npages >= 1
  }

  // ---- slab lists

  ghost predicate ListOk(slabs: map<nat, Slab>, head: nat, l: seq<nat>) {
    && NoDuplicates(l) && head == At(l, 0)
    && (forall i :: 0 <= i < |l| ==> l[i] in slabs && slabs[l[i]].next == At(l, i + 1))
  }

  /** Whether a slab belongs on the list of cache `k`: when it has a free object, except that for the slab `x` being
      worked on the answer is given by `on`. */
  predicate Belongs(slabs: map<nat, Slab>, k: nat, p: nat, x: nat, on: bool) {
    p in slabs && slabs[p].cacheIndex == k && (if p == x then on else slabs[p].freeCount > 0)
  }

  ghost predicate CacheOk(slabs: map<nat, Slab>, k: nat, c: Cache, l: seq<nat>, x: nat, on: bool)
    requires k < 8
  {
    && ListOk(slabs, c.slabs, l) && c.slabCount == |l| && c.objectSize == SizeOf(k)
    && (forall p :: p in l <==> Belongs(slabs, k, p, x, on))
  }

  // ---- blocks in use

  ghost predicate LiveOk(slabs: map<nat, Slab>, free: map<nat, seq<nat>>, ptr: nat, b: Block) {
    var p := ptr / 4096;
    p in slabs && p in free &&
    var s := slabs[p];
    if s.cacheIndex < 8 then
      ptr == Slot(p, s.cacheIndex, b.index) && b.index < Capacity(s.cacheIndex) && b.index !in free[p]
        && b.size <= SizeOf(s.cacheIndex)
    else ptr == p * 4096 + HEADER && HEADER + b.size <= s.npages * 4096
  }

  ghost predicate RunsApart(slabs: map<nat, Slab>) {
    forall p, q :: p in slabs && q in slabs && p < q ==> p + slabs[p].npages <= q
  }

  datatype Heap = Heap(slabs: map<nat, Slab>, links: map<nat, nat>, caches: seq<Cache>)

  datatype Shadow = Shadow(free: map<nat, seq<nat>>, lists: seq<seq<nat>>, live: map<nat, Block>)

  ghost predicate HeapOk(h: Heap, g: Shadow, x: nat, on: bool) {
    && |h.caches| == 8 && |g.lists| == 8 && g.free.Keys == h.slabs.Keys && 0 !in h.slabs
    && (forall p :: p in h.slabs ==> SlabOk(h.links, p, h.slabs[p], g.free[p]))
    && (forall k :: 0 <= k < 8 ==> CacheOk(h.slabs, k, h.caches[k], g.lists[k], x, on))
    && RunsApart(h.slabs)
    && (forall ptr :: ptr in g.live ==> LiveOk(h.slabs, g.free, ptr, g.live[ptr]))
  }

  /** Nothing is being worked on. */
  ghost predicate AtRest(h: Heap, g: Shadow) {
    HeapOk(h, g, 0, false)
  }

  lemma Working(h: Heap, g: Shadow, x: nat)
    requires x in h.slabs
    ensures HeapOk(h, g, x, h.slabs[x].freeCount > 0) <==> AtRest(h, g)
  {
    hide SlabOk, ListOk, LiveOk, RunsApart;
    if |h.caches| == 8 && |g.lists| == 8 && 0 !in h.slabs {
      forall k | 0 <= k < 8
        ensures CacheOk(h.slabs, k, h.caches[k], g.lists[k], x, h.slabs[x].freeCount > 0)
           <==> CacheOk(h.slabs, k, h.caches[k], g.lists[k], 0, false)
      {
        forall p ensures Belongs(h.slabs, k, p, x, h.slabs[x].freeCount > 0) <==> Belongs(h.slabs, k, p, 0, false) {
        }
      }
    }
  }

  // ---- what the blocks in use look like to their owners

  /** A block in use is 16-byte aligned, lies inside its slab behind the header, and is as long as was asked for. */
  lemma BlockPlace(h: Heap, g: Shadow, ptr: nat)
    requires AtRest(h, g) && ptr in g.live
    ensures var p := ptr / 4096;
      && p in h.slabs && ptr % 16 == 0 && p * 4096 + HEADER <= ptr
      && ptr + g.live[ptr].size <= (p + h.slabs[p].npages) * 4096
  {
    hide CacheOk, RunsApart, Slot, Capacity, SmallOk;
    var p := ptr / 4096;
    var s, b := h.slabs[p], g.live[ptr];
    assert LiveOk(h.slabs, g.free, ptr, b) && SlabOk(h.links, p, s, g.free[p]);
    if s.cacheIndex < 8 {
      SlotInside(p, s.cacheIndex, b.index);
      SmallPages(h.links, p, s, g.free[p]);
    } else {
      BigPlace(p, s.npages, b.size);
    }
  }

  lemma SmallPages(links: map<nat, nat>, p: nat, s: Slab, f: seq<nat>)
    requires s.cacheIndex < 8 && SmallOk(links, p, s, f)
    ensures s.npages == 1
  {
  }

  lemma BigPlace(p: nat, n: nat, size: nat)
    requires HEADER + size <= n * 4096
    ensures p * 4096 + HEADER + size <= (p + n) * 4096 && (p * 4096 + HEADER) % 16 == 0
  {
    SixteenAligned(p * 256 + 2);
  }

  lemma SixteenAligned(x: nat)
    ensures x * 16 % 16 == 0
  {
  }

  /** Two blocks in use have no byte in common. */
  lemma BlocksApart(h: Heap, g: Shadow, a: nat, b: nat)
    requires AtRest(h, g) && a in g.live && b in g.live && a < b
    ensures a + g.live[a].size <= b
  {
    BlockPlace(h, g, a);
    BlockPlace(h, g, b);
    var p, q := a / 4096, b / 4096;
    var s, m, n := h.slabs[p], g.live[a], g.live[b];
    assert LiveOk(h.slabs, g.free, a, m) && LiveOk(h.slabs, g.free, b, n);
    if p < q {
      assert p + s.npages <= q;
    } else {
      assert p == q;
      if s.cacheIndex < 8 {
        if n.index <= m.index {
          if n.index < m.index { SlotsApart(p, s.cacheIndex, n.index, m.index); }
          assert false;
        }
        SlotsApart(p, s.cacheIndex, m.index, n.index);
      }
    }
  }

  /** No block in use touches any slab header. */
  lemma BlocksClearHeaders(h: Heap, g: Shadow, a: nat, q: nat)
    requires AtRest(h, g) && a in g.live && q in h.slabs
    ensures a + g.live[a].size <= q * 4096 || q * 4096 + HEADER <= a
  {
    BlockPlace(h, g, a);
    var p := a / 4096;
    if p < q {
      assert p + h.slabs[p].npages <= q;
    }
  }

  // ---- taking an object from a slab and giving it back

  /** The slabs differ only in what the lists do not depend on. */
  ghost predicate SameLists(slabs: map<nat, Slab>, slabs': map<nat, Slab>, x: nat) {
    slabs'.Keys == slabs.Keys
    && forall q :: q in slabs ==>
      slabs'[q].next == slabs[q].next && slabs'[q].cacheIndex == slabs[q].cacheIndex
        && (q != x ==> slabs'[q] == slabs[q])
  }

  lemma CacheFrame(slabs: map<nat, Slab>, slabs': map<nat, Slab>, k: nat, c: Cache, l: seq<nat>, x: nat, on: bool)
    requires k < 8 && CacheOk(slabs, k, c, l, x, on) && SameLists(slabs, slabs', x)
    ensures CacheOk(slabs', k, c, l, x, on)
  {
    forall p ensures Belongs(slabs', k, p, x, on) <==> Belongs(slabs, k, p, x, on) {
    }
  }

  /** The whole heap, when only the free list of slab `p` and the blocks change. */
  lemma FreeListChanged(h: Heap, g: Shadow, p: nat, s': Slab, links': map<nat, nat>, f': seq<nat>, live': map<nat,
      Block>)
    requires HeapOk(h, g, p, true) && p in h.slabs
    requires s' == h.slabs[p].(freeList := s'.freeList, freeCount := s'.freeCount)
    requires SlabOk(links', p, s', f')
    requires forall q :: q in h.slabs && q != p ==> SlabOk(links', q, h.slabs[q], g.free[q])
    requires forall ptr :: ptr in live' ==> LiveOk(h.slabs[p := s'], g.free[p := f'], ptr, live'[ptr])
    ensures HeapOk(h.(slabs := h.slabs[p := s'], links := links'), g.(free := g.free[p := f'], live := live'), p, true)
  {
    hide SlabOk, CacheOk, LiveOk;
    forall k | 0 <= k < 8 ensures CacheOk(h.slabs[p := s'], k, h.caches[k], g.lists[k], p, true) {
      CacheFrame(h.slabs, h.slabs[p := s'], k, h.caches[k], g.lists[k], p, true);
    }
  }

  /** Blocks in other slabs do not notice. */
  lemma LiveFrame(h: Heap, g: Shadow, p: nat, s': Slab, f': seq<nat>, ptr: nat)
    requires HeapOk(h, g, p, true) && p in h.slabs && ptr in g.live
    requires s'.cacheIndex == h.slabs[p].cacheIndex && s'.npages == h.slabs[p].npages
    requires ptr / 4096 == p && h.slabs[p].cacheIndex < 8 ==> g.live[ptr].index !in f'
    ensures LiveOk(h.slabs[p := s'], g.free[p := f'], ptr, g.live[ptr])
  {
    hide SlabOk, CacheOk, RunsApart, Slot;
    assert LiveOk(h.slabs, g.free, ptr, g.live[ptr]);
  }

  function Popped(h: Heap, p: nat): Heap
    requires p in h.slabs && h.slabs[p].freeList in h.links && h.slabs[p].freeCount > 0
  {
    var s := h.slabs[p];
    h.(slabs := h.slabs[p := s.(freeList := h.links[s.freeList], freeCount := s.freeCount - 1)])
  }

  lemma FirstFree(h: Heap, g: Shadow, p: nat, x: nat, on: bool)
    requires HeapOk(h, g, x, on) && p in h.slabs && h.slabs[p].cacheIndex < 8
    ensures p in g.free && h.slabs[p].freeCount == |g.free[p]|
    ensures h.slabs[p].freeList == 0 <==> g.free[p] == []
    ensures g.free[p] != [] ==>
      h.slabs[p].freeList == Slot(p, h.slabs[p].cacheIndex, g.free[p][0]) && h.slabs[p].freeList in h.links
        && h.slabs[p].freeList >= 4096
  {
    var s, f := h.slabs[p], g.free[p];
    assert SlabOk(h.links, p, s, f);
    if f != [] {
      SlotInside(p, s.cacheIndex, f[0]);
      assert ObjectLinked(h.links, p, s.cacheIndex, f, 0);
    }
  }

  /** kmalloc takes the first free object. */
  lemma Pop(h: Heap, g: Shadow, p: nat, size: nat)
    requires HeapOk(h, g, p, true) && p in h.slabs && h.slabs[p].cacheIndex < 8
    requires p in g.free && g.free[p] != [] && size <= SizeOf(h.slabs[p].cacheIndex)
    ensures h.slabs[p].freeList in h.links && h.slabs[p].freeCount > 0 && h.slabs[p].freeList !in g.live
    ensures HeapOk(Popped(h, p), g.(free := g.free[p := g.free[p][1..]],
                                    live := g.live[h.slabs[p].freeList := Block(size, g.free[p][0])]), p, true)
  {
    hide Slot, CacheOk, RunsApart, SmallOk;
    FirstFree(h, g, p, p, true);
    var s, f, ptr := h.slabs[p], g.free[p], h.slabs[p].freeList;
    var s' := s.(freeList := h.links[ptr], freeCount := s.freeCount - 1);
    var live' := g.live[ptr := Block(size, f[0])];
    NotLive(h, g, p);
    PopSlab(h.links, p, s, f);
    forall q | q in live' ensures LiveOk(h.slabs[p := s'], g.free[p := f[1..]], q, live'[q]) {
      if q == ptr { PopBlock(h, g, p, size); } else { LiveFrame(h, g, p, s', f[1..], q); }
    }
    FreeListChanged(h, g, p, s', h.links, f[1..], live');
  }

  lemma NotLive(h: Heap, g: Shadow, p: nat)
    requires HeapOk(h, g, p, true) && p in h.slabs && h.slabs[p].cacheIndex < 8 && p in g.free && g.free[p] != []
    ensures h.slabs[p].freeList !in g.live
  {
    FirstFree(h, g, p, p, true);
    var s, f, ptr := h.slabs[p], g.free[p], h.slabs[p].freeList;
    assert SlabOk(h.links, p, s, f);
    SlotInside(p, s.cacheIndex, f[0]);
    assert f[0] in f;
    if ptr in g.live {
      assert LiveOk(h.slabs, g.free, ptr, g.live[ptr]);
      SlotInjective(p, s.cacheIndex, f[0], p, g.live[ptr].index);
    }
  }

  lemma PopBlock(h: Heap, g: Shadow, p: nat, size: nat)
    requires HeapOk(h, g, p, true) && p in h.slabs && h.slabs[p].cacheIndex < 8
    requires p in g.free && g.free[p] != [] && size <= SizeOf(h.slabs[p].cacheIndex)
    ensures h.slabs[p].freeList in h.links && h.slabs[p].freeCount > 0
    ensures LiveOk(Popped(h, p).slabs, g.free[p := g.free[p][1..]], h.slabs[p].freeList, Block(size, g.free[p][0]))
  {
    FirstFree(h, g, p, p, true);
    var s, f := h.slabs[p], g.free[p];
    assert SlabOk(h.links, p, s, f);
    SlotInside(p, s.cacheIndex, f[0]);
    assert f[0] !in f[1..];
  }

  lemma PopSlab(links: map<nat, nat>, p: nat, s: Slab, f: seq<nat>)
    requires s.cacheIndex < 8 && SmallOk(links, p, s, f) && f != []
    ensures s.freeList in links && SmallOk(links, p, s.(freeList := links[s.freeList], freeCount := |f| - 1), f[1..])
  {
    hide Slot;
    var k := s.cacheIndex;
    assert ObjectLinked(links, p, k, f, 0);
    forall i | 0 <= i < |f| - 1 ensures ObjectLinked(links, p, k, f[1..], i) {
      assert ObjectLinked(links, p, k, f, i + 1);
    }
  }

  function Pushed(h: Heap, ptr: nat): Heap
    requires ptr / 4096 in h.slabs
  {
    var p := ptr / 4096;
    var s := h.slabs[p];
    h.(links := h.links[ptr := s.freeList], slabs := h.slabs[p := s.(freeList := ptr, freeCount := s.freeCount + 1)])
  }

  /** kfree puts the object at the head of its free list. */
  lemma Push(h: Heap, g: Shadow, ptr: nat)
    requires ptr in g.live && ptr / 4096 in h.slabs && h.slabs[ptr / 4096].cacheIndex < 8
      && HeapOk(h, g, ptr / 4096, true)
    ensures ptr / 4096 in g.free && h.slabs[ptr / 4096].freeCount < h.slabs[ptr / 4096].capacity
    ensures HeapOk(Pushed(h, ptr), g.(free := g.free[ptr / 4096 := [g.live[ptr].index] + g.free[ptr / 4096]],
      live := g.live - {ptr}),
                   ptr / 4096, true)
  {
    hide Slot, CacheOk, RunsApart, SmallOk;
    PushRoom(h, g, ptr);
    var p := ptr / 4096;
    var s, f, b := h.slabs[p], g.free[p], g.live[ptr];
    var s' := s.(freeList := ptr, freeCount := s.freeCount + 1);
    var f', links', live' := [b.index] + f, h.links[ptr := s.freeList], g.live - {ptr};
    PushSlab(h.links, p, s, f, b.index);
    forall q | q in h.slabs && q != p ensures SlabOk(links', q, h.slabs[q], g.free[q]) {
      assert SlabOk(h.links, q, h.slabs[q], g.free[q]);
      OtherSlab(h.links, q, h.slabs[q], g.free[q], ptr, s.freeList);
    }
    forall q | q in live' ensures LiveOk(h.slabs[p := s'], g.free[p := f'], q, live'[q]) {
      SameSlot(h, g, ptr, q);
      LiveFrame(h, g, p, s', f', q);
    }
    FreeListChanged(h, g, p, s', links', f', live');
  }

  lemma PushRoom(h: Heap, g: Shadow, ptr: nat)
    requires ptr in g.live && ptr / 4096 in h.slabs && h.slabs[ptr / 4096].cacheIndex < 8
      && HeapOk(h, g, ptr / 4096, true)
    ensures var p := ptr / 4096; var s, f, i := h.slabs[p], g.free[p], g.live[ptr].index;
      && SmallOk(h.links, p, s, f) && s.freeCount == |f| < s.capacity
      && ptr == Slot(p, s.cacheIndex, i) && i < Capacity(s.cacheIndex) && i !in f
  {
    hide CacheOk, RunsApart, Slot;
    var p := ptr / 4096;
    var s, f, b := h.slabs[p], g.free[p], g.live[ptr];
    assert LiveOk(h.slabs, g.free, ptr, b) && SlabOk(h.links, p, s, f);
    Pigeons([b.index] + f, s.capacity);
  }

  /** Two blocks of one slab are different objects. */
  lemma SameSlot(h: Heap, g: Shadow, a: nat, b: nat)
    requires a in g.live && b in g.live && a != b && HeapOk(h, g, a / 4096, true)
    ensures b / 4096 == a / 4096 && a / 4096 in h.slabs && a / 4096 in g.free && h.slabs[a / 4096].cacheIndex < 8 ==>
      g.live[b].index != g.live[a].index && g.live[b].index !in g.free[a / 4096]
  {
    hide SlabOk, CacheOk, RunsApart, Slot;
    assert LiveOk(h.slabs, g.free, a, g.live[a]) && LiveOk(h.slabs, g.free, b, g.live[b]);
  }

  lemma PushSlab(links: map<nat, nat>, p: nat, s: Slab, f: seq<nat>, i: nat)
    requires s.cacheIndex < 8 && SmallOk(links, p, s, f) && i < Capacity(s.cacheIndex) && i !in f
    ensures var ptr := Slot(p, s.cacheIndex, i);
      SmallOk(links[ptr := s.freeList], p, s.(freeList := ptr, freeCount := |f| + 1), [i] + f)
  {
    var k := s.cacheIndex;
    var ptr, f' := Slot(p, k, i), [i] + f;
    var links' := links[ptr := s.freeList];
    forall j | 0 <= j < |f'| ensures ObjectLinked(links', p, k, f', j) {
      if j > 0 {
        assert ObjectLinked(links, p, k, f, j - 1) && f[j-1] in f;
        if Slot(p, k, f[j-1]) == ptr { SlotInjective(p, k, f[j-1], p, i); }
      }
    }
  }

  lemma OtherSlab(links: map<nat, nat>, q: nat, s: Slab, f: seq<nat>, ptr: nat, v: nat)
    requires SlabOk(links, q, s, f) && ptr / 4096 != q
    ensures SlabOk(links[ptr := v], q, s, f)
  {
    var links', k := links[ptr := v], s.cacheIndex;
    if k < 8 {
      forall i | 0 <= i < |f| ensures ObjectLinked(links', q, k, f, i) {
        assert ObjectLinked(links, q, s.cacheIndex, f, i);
        SlotInside(q, s.cacheIndex, f[i]);
      }
    }
  }

  /** Different numbers below `n` are at most `n` many, and if there are `n` of them none is missing. */
  lemma {:induction false} Pigeons(f: seq<nat>, n: nat)
    requires NoDuplicates(f) && forall i :: 0 <= i < |f| ==> f[i] < n
    ensures |f| <= n && (|f| == n ==> forall i :: 0 <= i < n ==> i in f)
    decreases n
  {
    var first := if |f| > 0 then f[0] else n;
    assert |f| > 0 ==> first < n;
    if n > 0 {
      if n - 1 in f {
        var j :| 0 <= j < |f| && f[j] == n - 1;
        var g := f[..j] + f[j+1..];
        assert forall i :: 0 <= i < |g| ==> g[i] == f[if i < j then i else i + 1];
        Pigeons(g, n - 1);
        forall i | 0 <= i < n && |f| == n ensures i in f { assert i < n - 1 ==> i in g; }
      } else {
        assert forall i :: 0 <= i < |f| ==> f[i] in f && f[i] != n - 1;
        Pigeons(f, n - 1);
      }
    }
  }

  // ---- slab lists

  function Enlisted(h: Heap, p: nat): Heap
    requires p in h.slabs && h.slabs[p].cacheIndex < |h.caches|
  {
    var k := h.slabs[p].cacheIndex;
    var c := h.caches[k];
    h.(slabs := h.slabs[p := h.slabs[p].(next := c.slabs)],
      caches := h.caches[k := c.(slabs := p, slabCount := c.slabCount + 1)])
  }

  /** The parts of the heap that do not depend on how the slabs are chained. */
  lemma Rechained(h: Heap, g: Shadow, h': Heap, g': Shadow, p: nat, on: bool, off: bool)
    requires HeapOk(h, g, p, on) && h'.links == h.links && g'.free == g.free && g'.live == g.live
    requires h'.slabs.Keys == h.slabs.Keys && forall q :: q in h.slabs ==>
      h'.slabs[q] == h.slabs[q].(next := h'.slabs[q].next)
    requires |h'.caches| == 8 && |g'.lists| == 8
    requires forall k :: 0 <= k < 8 ==> CacheOk(h'.slabs, k, h'.caches[k], g'.lists[k], p, off)
    ensures HeapOk(h', g', p, off)
  {
    hide CacheOk, Slot;
    forall q | q in h'.slabs ensures SlabOk(h'.links, q, h'.slabs[q], g'.free[q]) {
      assert SlabOk(h.links, q, h.slabs[q], g.free[q]);
    }
    forall ptr | ptr in g'.live ensures LiveOk(h'.slabs, g'.free, ptr, g'.live[ptr]) {
      assert LiveOk(h.slabs, g.free, ptr, g.live[ptr]);
    }
  }

  /** cache_add_slab */
  lemma Enlist(h: Heap, g: Shadow, p: nat)
    requires HeapOk(h, g, p, false) && p in h.slabs && h.slabs[p].cacheIndex < 8
    ensures var k := h.slabs[p].cacheIndex; HeapOk(Enlisted(h, p), g.(lists := g.lists[k := [p] + g.lists[k]]), p, true)
  {
    var k := h.slabs[p].cacheIndex;
    var h', g' := Enlisted(h, p), g.(lists := g.lists[k := [p] + g.lists[k]]);
    forall j | 0 <= j < 8 ensures CacheOk(h'.slabs, j, h'.caches[j], g'.lists[j], p, true) {
      assert CacheOk(h.slabs, j, h.caches[j], g.lists[j], p, false);
      assert p in g.lists[j] <==> Belongs(h.slabs, j, p, p, false);
      if j == k {
        EnlistHere(h.slabs, k, h.caches[k], g.lists[k], p);
      } else {
        EnlistElsewhere(h.slabs, h'.slabs, j, h.caches[j], g.lists[j], p, false, true);
      }
    }
    Rechained(h, g, h', g', p, false, true);
  }

  lemma EnlistHere(slabs: map<nat, Slab>, k: nat, c: Cache, l: seq<nat>, p: nat)
    requires k < 8 && p in slabs && p != 0 && slabs[p].cacheIndex == k && CacheOk(slabs, k, c, l, p, false)
    ensures CacheOk(slabs[p := slabs[p].(next := c.slabs)], k, c.(slabs := p, slabCount := c.slabCount + 1), [p] + l, p,
      true)
  {
    var slabs', l' := slabs[p := slabs[p].(next := c.slabs)], [p] + l;
    assert p !in l;
    forall i | 0 <= i < |l'| ensures l'[i] in slabs' && slabs'[l'[i]].next == At(l', i + 1) {
      if i > 0 { assert l'[i] == l[i-1] && l[i-1] in l; }
    }
    forall q ensures q in l' <==> Belongs(slabs', k, q, p, true) {
      assert q in l <==> Belongs(slabs, k, q, p, false);
    }
  }

  /** A list that `p` is not on does not notice its link changing. */
  lemma EnlistElsewhere(slabs: map<nat, Slab>, slabs': map<nat, Slab>, k: nat, c: Cache, l: seq<nat>, p: nat, on: bool,
                        off: bool)
    requires k < 8 && p in slabs && slabs[p].cacheIndex != k && CacheOk(slabs, k, c, l, p, on)
    requires slabs'.Keys == slabs.Keys && forall q :: q in slabs ==> slabs'[q] == slabs[q].(next := slabs'[q].next)
    requires forall q :: q in slabs && slabs[q].cacheIndex == k ==> slabs'[q] == slabs[q]
    ensures CacheOk(slabs', k, c, l, p, off)
  {
    forall q ensures q in l <==> Belongs(slabs', k, q, p, off) {
      assert q in l <==> Belongs(slabs, k, q, p, on);
    }
    forall i | 0 <= i < |l| ensures l[i] in slabs' && slabs'[l[i]].next == At(l, i + 1) {
      assert l[i] in l;
    }
  }

  function Delisted(h: Heap, p: nat, prev: nat): Heap
    requires p in h.slabs && h.slabs[p].cacheIndex < |h.caches| && (prev != 0 ==> prev in h.slabs)
    requires h.caches[h.slabs[p].cacheIndex].slabCount > 0
  {
    var k := h.slabs[p].cacheIndex;
    var c, next := h.caches[k], h.slabs[p].next;
    var slabs1 := if prev != 0 then h.slabs[prev := h.slabs[prev].(next := next)] else h.slabs;
    var c1 := if prev != 0 then c else c.(slabs := next);
    h.(slabs := slabs1[p := slabs1[p].(next := 0)], caches := h.caches[k := c1.(slabCount := c1.slabCount - 1)])
  }

  /** The slabs after `p` has been unlinked from place `i` of its list. */
  ghost predicate Unlinked(slabs: map<nat, Slab>, slabs': map<nat, Slab>, l: seq<nat>, p: nat, i: nat)
    requires i < |l|
  {
    && p in slabs && slabs'.Keys == slabs.Keys
    && (forall q :: q in slabs && q != p && (i == 0 || q != l[i-1]) ==> slabs'[q] == slabs[q])
    && slabs'[p] == slabs[p].(next := 0)
    && (i > 0 && l[i-1] in slabs ==> slabs'[l[i-1]] == slabs[l[i-1]].(next := slabs[p].next))
  }

  /** cache_remove_slab, having found `p` at place `i` of its list. */
  lemma Delist(h: Heap, g: Shadow, p: nat, i: nat)
    requires HeapOk(h, g, p, true) && p in h.slabs && h.slabs[p].cacheIndex < 8
    requires var l := g.lists[h.slabs[p].cacheIndex]; i < |l| && l[i] == p
    ensures var k := h.slabs[p].cacheIndex; var l := g.lists[k]; var prev := if i > 0 then l[i-1] else 0;
      && (prev != 0 ==> prev in h.slabs) && h.caches[k].slabCount > 0
      && HeapOk(Delisted(h, p, prev), g.(lists := g.lists[k := l[..i] + l[i+1..]]), p, false)
  {
    hide SlabOk, LiveOk, RunsApart, Belongs, NoDuplicates;
    var k := h.slabs[p].cacheIndex;
    var l := g.lists[k];
    var prev := if i > 0 then l[i-1] else 0;
    assert CacheOk(h.slabs, k, h.caches[k], l, p, true);
    Predecessor(h.slabs, k, h.caches[k], l, p, i);
    var h', g' := Delisted(h, p, prev), g.(lists := g.lists[k := l[..i] + l[i+1..]]);
    DelistedIs(h, l, p, i);
    forall j | 0 <= j < 8 ensures CacheOk(h'.slabs, j, h'.caches[j], g'.lists[j], p, false) {
      assert CacheOk(h.slabs, j, h.caches[j], g.lists[j], p, true);
      if j == k {
        DelistHere(h.slabs, h'.slabs, k, h.caches[k], h'.caches[k], l, p, i);
      } else {
        EnlistElsewhere(h.slabs, h'.slabs, j, h.caches[j], g.lists[j], p, true, false);
      }
    }
    Rechained(h, g, h', g', p, true, false);
  }

  lemma Predecessor(slabs: map<nat, Slab>, k: nat, c: Cache, l: seq<nat>, p: nat, i: nat)
    requires k < 8 && CacheOk(slabs, k, c, l, p, true) && i < |l| && l[i] == p
    ensures i > 0 ==> l[i-1] in slabs && l[i-1] != p && slabs[l[i-1]].cacheIndex == k
  {
    if i > 0 {
      assert l[i-1] in l;
      assert Belongs(slabs, k, l[i-1], p, true);
    }
  }

  lemma DelistedIs(h: Heap, l: seq<nat>, p: nat, i: nat)
    requires p in h.slabs && h.slabs[p].cacheIndex < |h.caches| && i < |l|
      && h.caches[h.slabs[p].cacheIndex].slabCount > 0
    requires 0 !in h.slabs
    requires i > 0 ==> l[i-1] in h.slabs && l[i-1] != p && h.slabs[l[i-1]].cacheIndex == h.slabs[p].cacheIndex
    ensures var k, prev := h.slabs[p].cacheIndex, if i > 0 then l[i-1] else 0;
      var h' := Delisted(h, p, prev); var c := h.caches[k];
      && Unlinked(h.slabs, h'.slabs, l, p, i) && h'.links == h.links && |h'.caches| == |h.caches|
      && (forall q :: q in h.slabs ==> h'.slabs[q] == h.slabs[q].(next := h'.slabs[q].next))
      && (forall q :: q in h.slabs && h.slabs[q].cacheIndex != k ==> h'.slabs[q] == h.slabs[q])
      && h'.caches[k] == Cache(c.objectSize, if i > 0 then c.slabs else h.slabs[p].next, c.slabCount - 1)
      && (forall j :: 0 <= j < |h.caches| && j != k ==> h'.caches[j] == h.caches[j])
  {
  }

  lemma DelistHere(slabs: map<nat, Slab>, slabs': map<nat, Slab>, k: nat, c: Cache, c': Cache, l: seq<nat>, p: nat,
                   i: nat)
    requires k < 8 && CacheOk(slabs, k, c, l, p, true) && i < |l| && l[i] == p && Unlinked(slabs, slabs', l, p, i)
    requires forall q :: q in slabs ==> slabs'[q] == slabs[q].(next := slabs'[q].next)
    requires c' == Cache(c.objectSize, if i > 0 then c.slabs else slabs[p].next, |l| - 1)
    ensures CacheOk(slabs', k, c', l[..i] + l[i+1..], p, false)
  {
    var l' := l[..i] + l[i+1..];
    CutMembers(l, i);
    DelistChain(slabs, slabs', c.slabs, c'.slabs, l, p, i);
    hide NoDuplicates, ListOk, Unlinked;
    forall q ensures q in l' <==> Belongs(slabs', k, q, p, false) {
      assert q in l <==> Belongs(slabs, k, q, p, true);
    }
  }

  lemma DelistChain(slabs: map<nat, Slab>, slabs': map<nat, Slab>, head: nat, head': nat, l: seq<nat>, p: nat, i: nat)
    requires ListOk(slabs, head, l) && i < |l| && l[i] == p && Unlinked(slabs, slabs', l, p, i)
    requires head' == if i > 0 then head else slabs[p].next
    ensures ListOk(slabs', head', l[..i] + l[i+1..])
  {
    var l' := l[..i] + l[i+1..];
    CutMembers(l, i);
    assert slabs[l[i]].next == At(l, i + 1);
    forall j | 0 <= j < |l'| ensures l'[j] in slabs' && slabs'[l'[j]].next == At(l', j + 1) {
      DelistNext(slabs, slabs', head, l, p, i, j);
    }
    CutAt(l, i, 0);
  }

  lemma CutAt(l: seq<nat>, i: nat, j: nat)
    requires i < |l|
    ensures At(l[..i] + l[i+1..], j) == At(l, if j < i then j else j + 1)
  {
  }

  lemma CutIndex(l: seq<nat>, i: nat, j: nat)
    requires i < |l| && j < |l| - 1
    ensures (l[..i] + l[i+1..])[j] == l[if j < i then j else j + 1]
  {
  }

  lemma DelistNext(slabs: map<nat, Slab>, slabs': map<nat, Slab>, head: nat, l: seq<nat>, p: nat, i: nat, j: nat)
    requires ListOk(slabs, head, l) && i < |l| && l[i] == p && Unlinked(slabs, slabs', l, p, i) && j < |l| - 1
    ensures var l' := l[..i] + l[i+1..]; l'[j] in slabs' && slabs'[l'[j]].next == At(l', j + 1)
  {
    hide At;
    var m := if j < i then j else j + 1;
    CutIndex(l, i, j);
    CutAt(l, i, j + 1);
    var q := l[m];
    assert q in slabs && slabs[q].next == At(l, m + 1);
    assert q != l[i];
    if m + 1 == i {
      assert slabs[l[i]].next == At(l, i + 1);
    } else {
      assert i > 0 ==> q != l[i-1];
    }
  }

  // ---- slabs come and go

  /** A new slab, not yet on any list. */
  lemma NewSlab(h: Heap, g: Shadow, p: nat, s: Slab, links': map<nat, nat>, f: seq<nat>)
    requires AtRest(h, g) && p !in h.slabs && p != 0 && SlabOk(links', p, s, f)
    requires forall q :: q in h.slabs ==> q + h.slabs[q].npages <= p || p + s.npages <= q
    requires forall a :: a in h.links && a / 4096 != p ==> a in links' && links'[a] == h.links[a]
    ensures HeapOk(h.(slabs := h.slabs[p := s], links := links'), g.(free := g.free[p := f]), p, false)
  {
    hide Slot, CacheOk, SmallOk, LiveOk, SlabOk;
    var h', g' := h.(slabs := h.slabs[p := s], links := links'), g.(free := g.free[p := f]);
    forall q | q in h'.slabs ensures SlabOk(h'.links, q, h'.slabs[q], g'.free[q]) {
      if q != p {
        assert SlabOk(h.links, q, h.slabs[q], g.free[q]);
        FarLinks(h.links, links', p, q, h.slabs[q], g.free[q]);
      }
    }
    forall k | 0 <= k < 8 ensures CacheOk(h'.slabs, k, h'.caches[k], g'.lists[k], p, false) {
      assert CacheOk(h.slabs, k, h.caches[k], g.lists[k], 0, false);
      NewElsewhere(h.slabs, k, h.caches[k], g.lists[k], p, s);
    }
    forall ptr | ptr in g'.live ensures LiveOk(h'.slabs, g'.free, ptr, g'.live[ptr]) {
      assert LiveOk(h.slabs, g.free, ptr, g.live[ptr]);
      LiveStays(h.slabs, g.free, ptr, g.live[ptr], p, s, f);
    }
  }

  lemma LiveStays(slabs: map<nat, Slab>, free: map<nat, seq<nat>>, ptr: nat, b: Block, p: nat, s: Slab, f: seq<nat>)
    requires LiveOk(slabs, free, ptr, b) && p !in slabs
    ensures LiveOk(slabs[p := s], free[p := f], ptr, b)
  {
    hide Slot;
  }

  lemma FarLinks(links: map<nat, nat>, links': map<nat, nat>, p: nat, q: nat, s: Slab, f: seq<nat>)
    requires SlabOk(links, q, s, f) && q != p
    requires forall a :: a in links && a / 4096 != p ==> a in links' && links'[a] == links[a]
    ensures SlabOk(links', q, s, f)
  {
    if s.cacheIndex < 8 {
      forall i | 0 <= i < |f| ensures ObjectLinked(links', q, s.cacheIndex, f, i) {
        assert ObjectLinked(links, q, s.cacheIndex, f, i);
        SlotInside(q, s.cacheIndex, f[i]);
      }
    }
  }

  lemma NewElsewhere(slabs: map<nat, Slab>, k: nat, c: Cache, l: seq<nat>, p: nat, s: Slab)
    requires k < 8 && CacheOk(slabs, k, c, l, 0, false) && 0 !in slabs && p !in slabs
    ensures CacheOk(slabs[p := s], k, c, l, p, false)
  {
    forall q ensures q in l <==> Belongs(slabs[p := s], k, q, p, false) {
      assert q in l <==> Belongs(slabs, k, q, 0, false);
    }
  }

  /** No block in use lies in the slab. */
  ghost predicate NoBlocks(live: map<nat, Block>, p: nat) {
    forall ptr :: ptr in live ==> ptr / 4096 != p
  }

  /** A slab that holds no block and is on no list can go. */
  lemma DropSlab(h: Heap, g: Shadow, p: nat)
    requires HeapOk(h, g, p, false) && p in h.slabs && NoBlocks(g.live, p)
    ensures AtRest(h.(slabs := h.slabs - {p}), g.(free := g.free - {p}))
  {
    hide Slot, SlabOk, CacheOk;
    var h', g' := h.(slabs := h.slabs - {p}), g.(free := g.free - {p});
    forall q | q in h'.slabs ensures SlabOk(h'.links, q, h'.slabs[q], g'.free[q]) {
      assert SlabOk(h.links, q, h.slabs[q], g.free[q]);
    }
    forall k | 0 <= k < 8 ensures CacheOk(h'.slabs, k, h'.caches[k], g'.lists[k], 0, false) {
      assert CacheOk(h.slabs, k, h.caches[k], g.lists[k], p, false);
      DropElsewhere(h.slabs, k, h.caches[k], g.lists[k], p);
    }
    forall ptr | ptr in g'.live ensures LiveOk(h'.slabs, g'.free, ptr, g'.live[ptr]) {
      assert LiveOk(h.slabs, g.free, ptr, g.live[ptr]);
    }
  }

  lemma DropElsewhere(slabs: map<nat, Slab>, k: nat, c: Cache, l: seq<nat>, p: nat)
    requires k < 8 && CacheOk(slabs, k, c, l, p, false) && 0 !in slabs
    ensures CacheOk(slabs - {p}, k, c, l, 0, false)
  {
    forall q ensures q in l <==> Belongs(slabs - {p}, k, q, 0, false) {
      assert q in l <==> Belongs(slabs, k, q, p, false);
    }
    forall i | 0 <= i < |l| ensures l[i] in slabs - {p} {
      assert l[i] in l;
    }
  }

  /** A slab all of whose objects are free holds no block. */
  lemma FullIsEmpty(h: Heap, g: Shadow, p: nat, x: nat, on: bool, ptr: nat)
    requires HeapOk(h, g, x, on) && p in h.slabs && h.slabs[p].cacheIndex < 8
      && h.slabs[p].freeCount == h.slabs[p].capacity
    requires ptr in g.live
    ensures ptr / 4096 != p
  {
    assert LiveOk(h.slabs, g.free, ptr, g.live[ptr]);
    assert SlabOk(h.links, p, h.slabs[p], g.free[p]);
    Pigeons(g.free[p], h.slabs[p].capacity);
  }

  /** The block of a slab that has room for only one: the slab has nothing free, and no other block is in it. */
  lemma OnlyBlock(h: Heap, g: Shadow, ptr: nat, q: nat)
    requires AtRest(h, g) && ptr in g.live && ptr / 4096 in h.slabs && h.slabs[ptr / 4096].capacity == 1
    ensures h.slabs[ptr / 4096].freeCount == 0
    ensures q in g.live && q != ptr ==> q / 4096 != ptr / 4096
  {
    hide CacheOk, RunsApart, Slot;
    var p := ptr / 4096;
    var s, f, b := h.slabs[p], g.free[p], g.live[ptr];
    assert LiveOk(h.slabs, g.free, ptr, b) && SlabOk(h.links, p, s, f);
    if s.cacheIndex < 8 {
      Pigeons([b.index] + f, 1);
    }
    if q in g.live && q / 4096 == p {
      assert LiveOk(h.slabs, g.free, q, g.live[q]);
    }
  }

  lemma ForgetBlock(h: Heap, g: Shadow, x: nat, on: bool, ptr: nat)
    requires HeapOk(h, g, x, on)
    ensures HeapOk(h, g.(live := g.live - {ptr}), x, on)
  {
    hide SlabOk, CacheOk, LiveOk;
  }

  /** The block of a slab made for it alone. */
  lemma BigBlock(h: Heap, g: Shadow, p: nat, size: nat)
    requires AtRest(h, g) && p in h.slabs && h.slabs[p].cacheIndex == BIG && HEADER + size <= h.slabs[p].npages * 4096
    ensures AtRest(h, g.(live := g.live[p * 4096 + HEADER := Block(size, 0)]))
  {
    hide SlabOk, CacheOk, Slot;
    assert (p * 4096 + HEADER) / 4096 == p;
  }

  /** A slab on a list has a free object. */
  lemma ListedHasRoom(h: Heap, g: Shadow, k: nat, i: nat)
    requires AtRest(h, g) && k < 8 && i < |g.lists[k]|
    ensures var p := g.lists[k][i];
      p in h.slabs && h.slabs[p].cacheIndex == k && h.slabs[p].freeCount > 0 && h.slabs[p].freeList != 0
  {
    var p := g.lists[k][i];
    assert CacheOk(h.slabs, k, h.caches[k], g.lists[k], 0, false);
    assert p in g.lists[k];
    assert Belongs(h.slabs, k, p, 0, false);
    FirstFree(h, g, p, 0, false);
  }

  // ---- conservation

  /** Every object of a small slab is free or a block in use, and a large slab has its block. */
  ghost predicate Accounted(p: nat, s: Slab, f: seq<nat>, live: map<nat, Block>) {
    if s.cacheIndex < 8 then forall i :: 0 <= i < Capacity(s.cacheIndex) && i !in f ==> Slot(p, s.cacheIndex, i) in live
    else p * 4096 + HEADER in live
  }

  /** A small slab with nothing in use. */
  predicate Idle(s: Slab) {
    s.cacheIndex < 8 && s.freeCount == s.capacity
  }

  /** Two slabs of one cache, with nothing in use. */
  predicate BothIdle(s: Slab, t: Slab) {
    Idle(s) && Idle(t) && s.cacheIndex == t.cacheIndex
  }

  /** Of all slabs but `x`: no object is lost, and a cache keeps at most one slab with nothing in use. */
  ghost predicate Conserved(slabs: map<nat, Slab>, g: Shadow, x: nat) {
    && (forall p :: p in slabs && p != x ==> p in g.free && Accounted(p, slabs[p], g.free[p], g.live))
    && (forall p, q :: p in slabs && q in slabs && p != x && q != x && BothIdle(slabs[p], slabs[q]) ==> p == q)
  }

  /** The same while slab `x` is being worked on. */
  ghost predicate Balanced(slabs: map<nat, Slab>, g: Shadow, x: nat) {
    Conserved(slabs, g, x) && (x in slabs ==> x in g.free && Accounted(x, slabs[x], g.free[x], g.live))
  }

  function PageOf(ptr: nat): nat {
    ptr / 4096
  }

  /** The slabs differ only in how they are chained. */
  ghost predicate Relinked(slabs: map<nat, Slab>, slabs': map<nat, Slab>) {
    slabs'.Keys == slabs.Keys && forall q :: q in slabs ==> slabs'[q] == slabs[q].(next := slabs'[q].next)
  }

  /** Whatever happens to slab `x` and its blocks, the others keep account of theirs. */
  lemma ConservedElsewhere(slabs: map<nat, Slab>, g: Shadow, slabs': map<nat, Slab>, g': Shadow, x: nat)
    requires Conserved(slabs, g, x)
    requires forall q :: q in slabs' && q != x ==> q in slabs && slabs'[q] == slabs[q].(next := slabs'[q].next)
    requires forall q :: q in slabs' && q != x && q in g.free ==> q in g'.free && g'.free[q] == g.free[q]
    requires forall ptr :: ptr in g.live && PageOf(ptr) != x ==> ptr in g'.live
    ensures Conserved(slabs', g', x)
  {
    hide Slot, Capacity;
    forall q | q in slabs' && q != x ensures q in g'.free && Accounted(q, slabs'[q], g'.free[q], g'.live) {
      assert Accounted(q, slabs[q], g.free[q], g.live);
      StillAccounted(q, slabs[q], slabs'[q], g.free[q], g.live, g'.live, x);
    }
  }

  lemma StillAccounted(q: nat, s: Slab, s': Slab, f: seq<nat>, live: map<nat, Block>, live': map<nat, Block>, x: nat)
    requires Accounted(q, s, f, live) && q != x && s'.cacheIndex == s.cacheIndex
    requires forall ptr :: ptr in live && PageOf(ptr) != x ==> ptr in live'
    ensures Accounted(q, s', f, live')
  {
    hide Slot, Capacity;
    if s.cacheIndex < 8 {
      forall i | 0 <= i < Capacity(s.cacheIndex) && i !in f ensures Slot(q, s.cacheIndex, i) in live' {
        SlotInside(q, s.cacheIndex, i);
      }
    } else {
      assert (q * 4096 + HEADER) / 4096 == q;
    }
  }

  lemma RelinkedBalanced(slabs: map<nat, Slab>, g: Shadow, slabs': map<nat, Slab>, g': Shadow, x: nat)
    requires Balanced(slabs, g, x) && Relinked(slabs, slabs') && g'.free == g.free && g'.live == g.live
    ensures Balanced(slabs', g', x)
  {
    hide Slot, Capacity, Conserved;
    ConservedElsewhere(slabs, g, slabs', g', x);
  }

  /** Work on slab `x` begins. */
  lemma Unsettle(slabs: map<nat, Slab>, g: Shadow, x: nat)
    requires Conserved(slabs, g, 0) && 0 !in slabs
    ensures Balanced(slabs, g, x)
  {
    hide Accounted, Idle;
  }

  /** The work on slab `x` is done. */
  lemma Settle(slabs: map<nat, Slab>, g: Shadow, x: nat)
    requires Balanced(slabs, g, x) && 0 !in slabs
    requires x in slabs ==> forall q :: q in slabs && q != x ==> !BothIdle(slabs[x], slabs[q])
    ensures Conserved(slabs, g, 0)
  {
    hide Accounted, Idle;
  }

  /** A new slab is all free. */
  lemma NewBalanced(slabs: map<nat, Slab>, g: Shadow, p: nat, s: Slab, links: map<nat, nat>, f: seq<nat>)
    requires Conserved(slabs, g, 0) && 0 !in slabs && p !in slabs && s.cacheIndex < 8
    requires SmallOk(links, p, s, f) && |f| == Capacity(s.cacheIndex)
    ensures Balanced(slabs[p := s], g.(free := g.free[p := f]), p)
  {
    Unsettle(slabs, g, p);
    hide Slot, Capacity, Conserved, ObjectLinked;
    ConservedElsewhere(slabs, g, slabs[p := s], g.(free := g.free[p := f]), p);
    Pigeons(f, Capacity(s.cacheIndex));
  }

  /** A large slab is made with its block. */
  lemma BigBalanced(slabs: map<nat, Slab>, g: Shadow, p: nat, s: Slab, b: Block)
    requires Conserved(slabs, g, 0) && 0 !in slabs && p !in slabs && p != 0 && s.cacheIndex == BIG
    ensures Conserved(slabs[p := s], g.(free := g.free[p := []], live := g.live[p * 4096 + HEADER := b]), 0)
  {
    Unsettle(slabs, g, p);
    hide Slot, Capacity, Conserved;
    var g' := g.(free := g.free[p := []], live := g.live[p * 4096 + HEADER := b]);
    ConservedElsewhere(slabs, g, slabs[p := s], g', p);
    Settle(slabs[p := s], g', p);
  }

  /** An object taken off the free list is in use. */
  lemma PopBalanced(h: Heap, g: Shadow, p: nat, size: nat)
    requires HeapOk(h, g, p, true) && p in h.slabs && h.slabs[p].cacheIndex < 8 && Balanced(h.slabs, g, p)
    requires p in g.free && g.free[p] != [] && h.slabs[p].freeList in h.links && h.slabs[p].freeCount > 0
    ensures var g' := g.(free := g.free[p := g.free[p][1..]],
                         live := g.live[h.slabs[p].freeList := Block(size, g.free[p][0])]);
      Balanced(Popped(h, p).slabs, g', p) && !Idle(Popped(h, p).slabs[p])
  {
    FirstFree(h, g, p, p, true);
    hide Slot, Capacity, Conserved, CacheOk, RunsApart, LiveOk;
    var s, f, ptr := h.slabs[p], g.free[p], h.slabs[p].freeList;
    var g' := g.(free := g.free[p := f[1..]], live := g.live[ptr := Block(size, f[0])]);
    ConservedElsewhere(h.slabs, g, Popped(h, p).slabs, g', p);
    forall i | 0 <= i < Capacity(s.cacheIndex) && i !in f[1..] ensures Slot(p, s.cacheIndex, i) in g'.live {
      assert i in f ==> i == f[0];
    }
    RoomFor(h, g, p);
  }

  lemma RoomFor(h: Heap, g: Shadow, p: nat)
    requires HeapOk(h, g, p, true) && p in h.slabs && h.slabs[p].cacheIndex < 8
    ensures h.slabs[p].freeCount <= h.slabs[p].capacity
  {
    hide Slot, Capacity, CacheOk, RunsApart, LiveOk;
    assert SlabOk(h.links, p, h.slabs[p], g.free[p]);
    Pigeons(g.free[p], h.slabs[p].capacity);
  }

  /** An object given back is on the free list. */
  lemma PushBalanced(h: Heap, g: Shadow, ptr: nat)
    requires ptr in g.live && ptr / 4096 in h.slabs && h.slabs[ptr / 4096].cacheIndex < 8
      && HeapOk(h, g, ptr / 4096, true)
    requires ptr / 4096 in g.free && Balanced(h.slabs, g, ptr / 4096)
    ensures Balanced(Pushed(h, ptr).slabs, g.(free := g.free[ptr / 4096 := [g.live[ptr].index] + g.free[ptr / 4096]],
      live := g.live - {ptr}), ptr / 4096)
  {
    PushRoom(h, g, ptr);
    hide HeapOk, Slot, Capacity, Conserved, SmallOk, Accounted;
    BackInPlace(h.slabs, g, ptr / 4096, Pushed(h, ptr).slabs[ptr / 4096], ptr, g.live[ptr].index);
  }

  lemma BackInPlace(slabs: map<nat, Slab>, g: Shadow, p: nat, s': Slab, ptr: nat, i: nat)
    requires Balanced(slabs, g, p) && p in slabs && slabs[p].cacheIndex == s'.cacheIndex < 8 && PageOf(ptr) == p
    requires i < Capacity(s'.cacheIndex) && ptr == Slot(p, s'.cacheIndex, i)
    ensures p in g.free && Balanced(slabs[p := s'], g.(free := g.free[p := [i] + g.free[p]], live := g.live - {ptr}), p)
  {
    hide Slot, Capacity, Conserved, Accounted, PageOf;
    ConservedElsewhere(slabs, g, slabs[p := s'], g.(free := g.free[p := [i] + g.free[p]], live := g.live - {ptr}), p);
    PushAccounted(p, slabs[p], s', g.free[p], g.live, i);
  }

  lemma PushAccounted(p: nat, s: Slab, s': Slab, f: seq<nat>, live: map<nat, Block>, i: nat)
    requires Accounted(p, s, f, live) && s'.cacheIndex == s.cacheIndex < 8 && i < Capacity(s.cacheIndex)
    ensures Accounted(p, s', [i] + f, live - {Slot(p, s.cacheIndex, i)})
  {
    hide Slot, Capacity;
    var k, f' := s.cacheIndex, [i] + f;
    forall j | 0 <= j < Capacity(k) && j !in f' ensures Slot(p, k, j) in live - {Slot(p, k, i)} {
      assert f'[0] == i && (j in f ==> j in f');
      if Slot(p, k, j) == Slot(p, k, i) { SlotInjective(p, k, j, p, i); }
    }
  }

  lemma DropBalanced(slabs: map<nat, Slab>, g: Shadow, p: nat)
    requires Conserved(slabs, g, p) && 0 !in slabs
    ensures Conserved(slabs - {p}, g.(free := g.free - {p}), 0)
  {
    hide Slot, Capacity, Conserved;
    var g' := g.(free := g.free - {p});
    ConservedElsewhere(slabs, g, slabs - {p}, g', p);
    Settle(slabs - {p}, g', p);
  }

  /** A slab that is alone on its list is the only one of its cache with nothing in use. */
  lemma OnlyIdle(h: Heap, g: Shadow, p: nat, q: nat)
    requires HeapOk(h, g, p, true) && p in h.slabs && h.slabs[p].cacheIndex < 8
    requires h.caches[h.slabs[p].cacheIndex].slabCount <= 1
    requires q in h.slabs && q != p && h.slabs[q].cacheIndex == h.slabs[p].cacheIndex
    ensures !Idle(h.slabs[q])
  {
    hide RunsApart, LiveOk, Slot;
    var k := h.slabs[p].cacheIndex;
    assert CacheOk(h.slabs, k, h.caches[k], g.lists[k], p, true) && SlabOk(h.links, q, h.slabs[q], g.free[q]);
    assert p in g.lists[k] <==> Belongs(h.slabs, k, p, p, true);
    assert g.lists[k] == [p];
    assert q in g.lists[k] <==> Belongs(h.slabs, k, q, p, true);
  }

  /** The blocks in use that lie in a slab. */
  function BlocksIn(live: map<nat, Block>, p: nat): set<nat> {
    set ptr | ptr in live && PageOf(ptr) == p
  }

  /** The free objects of a slab and its blocks in use are together as many as it has room for. */
  lemma ObjectsConserved(h: Heap, g: Shadow, p: nat)
    requires AtRest(h, g) && Conserved(h.slabs, g, 0) && p in h.slabs
    ensures h.slabs[p].freeCount + |BlocksIn(g.live, p)| == h.slabs[p].capacity
  {
    hide CacheOk, RunsApart, Slot, Capacity, Accounted, LiveOk, BlocksIn, Slots;
    var s, f := h.slabs[p], g.free[p];
    assert SlabOk(h.links, p, s, f);
    if s.cacheIndex < 8 {
      BlocksAre(h, g, p);
      SlotsSize(p, s.cacheIndex, InUseIn(s, f));
      UsedOrFree(s, f);
    } else {
      BigBlockIs(h, g, p);
    }
  }

  lemma BigBlockIs(h: Heap, g: Shadow, p: nat)
    requires AtRest(h, g) && Conserved(h.slabs, g, 0) && p in h.slabs && h.slabs[p].cacheIndex >= 8
    ensures BlocksIn(g.live, p) == {p * 4096 + HEADER}
  {
    hide AtRest, Conserved, Slot, Capacity, PageOf;
    BigInUse(h, g, p);
    forall ptr | ptr in BlocksIn(g.live, p) ensures ptr == p * 4096 + HEADER {
      BigBlockAt(h, g, ptr);
    }
  }

  lemma BigInUse(h: Heap, g: Shadow, p: nat)
    requires AtRest(h, g) && Conserved(h.slabs, g, 0) && p in h.slabs && h.slabs[p].cacheIndex >= 8
    ensures p * 4096 + HEADER in g.live && PageOf(p * 4096 + HEADER) == p
  {
    hide CacheOk, RunsApart, LiveOk, SlabOk, Slot, Capacity;
    assert Accounted(p, h.slabs[p], g.free[p], g.live);
  }

  lemma BigBlockAt(h: Heap, g: Shadow, ptr: nat)
    requires AtRest(h, g) && ptr in g.live && PageOf(ptr) in h.slabs && h.slabs[PageOf(ptr)].cacheIndex >= 8
    ensures ptr == PageOf(ptr) * 4096 + HEADER
  {
    hide CacheOk, RunsApart, SlabOk, Slot, Capacity;
    assert LiveOk(h.slabs, g.free, ptr, g.live[ptr]);
  }

  lemma BlocksAre(h: Heap, g: Shadow, p: nat)
    requires AtRest(h, g) && Conserved(h.slabs, g, 0) && p in h.slabs && h.slabs[p].cacheIndex < 8
    requires p in g.free
    ensures BlocksIn(g.live, p) == Slots(p, h.slabs[p].cacheIndex, InUseIn(h.slabs[p], g.free[p]))
  {
    hide AtRest, Conserved, Slot, PageOf, InUseIn;
    var s, f := h.slabs[p], g.free[p];
    forall ptr | ptr in BlocksIn(g.live, p) ensures ptr in Slots(p, s.cacheIndex, InUseIn(s, f)) {
      BlockIsSlot(h, g, ptr);
    }
    forall i | i in InUseIn(s, f) ensures Slot(p, s.cacheIndex, i) in BlocksIn(g.live, p) {
      SlotIsBlock(h, g, p, i);
    }
  }

  lemma BlockIsSlot(h: Heap, g: Shadow, ptr: nat)
    requires AtRest(h, g) && ptr in g.live && PageOf(ptr) in h.slabs && h.slabs[PageOf(ptr)].cacheIndex < 8
    ensures var p := PageOf(ptr);
      && ptr == Slot(p, h.slabs[p].cacheIndex, g.live[ptr].index) && p in g.free
      && g.live[ptr].index in InUseIn(h.slabs[p], g.free[p])
  {
    hide CacheOk, RunsApart, Slot, Capacity;
    var p := PageOf(ptr);
    assert LiveOk(h.slabs, g.free, ptr, g.live[ptr]) && SlabOk(h.links, p, h.slabs[p], g.free[p]);
  }

  lemma SlotIsBlock(h: Heap, g: Shadow, p: nat, i: nat)
    requires AtRest(h, g) && Conserved(h.slabs, g, 0) && p in h.slabs && h.slabs[p].cacheIndex < 8
    requires p in g.free && i in InUseIn(h.slabs[p], g.free[p])
    ensures Slot(p, h.slabs[p].cacheIndex, i) in g.live && PageOf(Slot(p, h.slabs[p].cacheIndex, i)) == p
  {
    hide CacheOk, RunsApart, Slot, Capacity, LiveOk;
    var s, f := h.slabs[p], g.free[p];
    assert SlabOk(h.links, p, s, f) && Accounted(p, s, f, g.live);
    SlotInside(p, s.cacheIndex, i);
  }

  /** The objects of a slab that are not free. */
  function InUseIn(s: Slab, f: seq<nat>): set<nat> {
    Span(0, s.capacity) - Members(f)
  }

  lemma UsedOrFree(s: Slab, f: seq<nat>)
    requires NoDuplicates(f) && forall i :: 0 <= i < |f| ==> f[i] < s.capacity
    ensures |InUseIn(s, f)| + |f| == s.capacity
  {
    DistinctSize(f);
    assert Members(f) <= Span(0, s.capacity);
    assert |InUseIn(s, f) + Members(f)| == |InUseIn(s, f)| + |Members(f)|;
    assert InUseIn(s, f) + Members(f) == Span(0, s.capacity);
  }

  /** The addresses of some of a slab's objects. */
  function Slots(p: nat, k: nat, objects: set<nat>): set<nat>
    requires k < 8
  {
    set i | i in objects :: Slot(p, k, i)
  }

  lemma {:induction false} SlotsSize(p: nat, k: nat, objects: set<nat>)
    requires k < 8 && forall i :: i in objects ==> i < Capacity(k)
    ensures |Slots(p, k, objects)| == |objects|
  {
    if objects != {} {
      var i :| i in objects;
      SlotsSize(p, k, objects - {i});
      NextSlot(p, k, objects, i);
    } else {
      assert Slots(p, k, objects) == {};
    }
  }

  lemma NextSlot(p: nat, k: nat, objects: set<nat>, i: nat)
    requires k < 8 && i in objects && forall j :: j in objects ==> j < Capacity(k)
    ensures var rest := Slots(p, k, objects - {i});
      Slot(p, k, i) !in rest && Slots(p, k, objects) == rest + {Slot(p, k, i)}
  {
    hide Slot, Capacity;
    var rest := Slots(p, k, objects - {i});
    if Slot(p, k, i) in rest {
      var j :| j in objects - {i} && Slot(p, k, j) == Slot(p, k, i);
      SlotInjective(p, k, j, p, i);
    }
    forall a | a in Slots(p, k, objects) ensures a in rest + {Slot(p, k, i)} {
      var j :| j in objects && Slot(p, k, j) == a;
    }
  }

  /** With nothing in use no large slab is left, and of each cache at most one slab, all of it free. */
  lemma NothingInUse(h: Heap, g: Shadow)
    requires AtRest(h, g) && Conserved(h.slabs, g, 0) && g.live == map[]
    ensures forall p :: p in h.slabs ==> Idle(h.slabs[p]) && h.slabs[p].npages == 1
    ensures forall p, q :: p in h.slabs && q in h.slabs && h.slabs[p].cacheIndex == h.slabs[q].cacheIndex ==> p == q
    ensures |h.slabs| <= 8
  {
    hide CacheOk, RunsApart, LiveOk, SmallOk, Slot, Capacity;
    forall p | p in h.slabs ensures Idle(h.slabs[p]) && h.slabs[p].npages == 1 {
      ObjectsConserved(h, g, p);
      assert BlocksIn(g.live, p) == {};
      OnePage(h, g, p);
    }
    FewKeys(h.slabs, h.slabs.Keys, 8);
    assert |h.slabs| == |h.slabs.Keys|;
  }

  lemma OnePage(h: Heap, g: Shadow, p: nat)
    requires AtRest(h, g) && p in h.slabs && h.slabs[p].freeCount == h.slabs[p].capacity
    ensures h.slabs[p].cacheIndex < 8 && h.slabs[p].npages == 1
  {
    assert SlabOk(h.links, p, h.slabs[p], g.free[p]);
  }

  lemma {:induction false} FewKeys(slabs: map<nat, Slab>, ps: set<nat>, n: nat)
    requires ps <= slabs.Keys && forall p :: p in ps ==> slabs[p].cacheIndex < n
    requires forall p, q :: p in ps && q in ps && slabs[p].cacheIndex == slabs[q].cacheIndex ==> p == q
    ensures |ps| <= n
    decreases n
  {
    if n > 0 && exists p :: p in ps && slabs[p].cacheIndex == n - 1 {
      var p :| p in ps && slabs[p].cacheIndex == n - 1;
      FewKeys(slabs, ps - {p}, n - 1);
      assert ps == (ps - {p}) + {p};
    } else if n > 0 {
      FewKeys(slabs, ps, n - 1);
    } else {
      assert ps == {};
    }
  }
}
