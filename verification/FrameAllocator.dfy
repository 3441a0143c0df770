/** kernel/src/mm/pmm.c: the free list threaded through the page database, with a union field
    that links free pages and counts the sharers of allocated ones. */
module FrameAllocator {
  import opened Seqs
  import opened FrameStates

  /** A page_t pointer; every page lives in the database, so it is an index. */
  datatype Link = Null | To(pfn: nat)

  /** The union `u2`, tagged with what was stored in it last. Reading it as the other
      member is not well formed, so verification shows it never happens. */
  datatype U2 = Prev(prev: Link) | Sharers(count: nat)

  datatype Flags = Flags(free: bool, alloc: bool, reserved: bool, shared: bool, cow: bool, dirty: bool)

  datatype Page = Page(next: Link, u2: U2, flags: Flags, refcount: nat)

  function View(p: Page): Frame {
    Frame(if p.flags.free then Free else if p.flags.alloc then Allocated else Reserved,
          p.flags.shared, p.flags.cow, p.refcount, if p.u2.Sharers? then p.u2.count else 0)
  }

  function Views(ps: seq<Page>): (fs: seq<Frame>)
    ensures |fs| == |ps| && forall i :: 0 <= i < |ps| ==> fs[i] == View(ps[i])
  {
    seq(|ps|, i requires 0 <= i < |ps| => View(ps[i]))
  }

  /** Exactly one of FREE, ALLOCATED and RESERVED; nothing sets DIRTY; a counted page holds a count. */
  ghost predicate PageOk(p: Page) {
    && !p.flags.dirty
    && (p.flags.free ==> !p.flags.alloc && !p.flags.reserved)
    && (p.flags.alloc ==> !p.flags.reserved && p.u2.Sharers?)
    && (p.flags.free || p.flags.alloc || p.flags.reserved)
  }

  function LinkAt(list: seq<nat>, k: int): Link {
    if 0 <= k < |list| then To(list[k]) else Null
  }

  ghost predicate Linked(ps: seq<Page>, list: seq<nat>, head: Link) {
    && NoDuplicates(list)
    && head == LinkAt(list, 0)
    && (forall k :: 0 <= k < |list| ==> PageLinked(ps, list, k))
  }

  ghost predicate PageLinked(ps: seq<Page>, list: seq<nat>, k: nat)
    requires k < |list|
  {
    && list[k] < |ps|
    && ps[list[k]].next == LinkAt(list, k + 1)
    && ps[list[k]].u2 == Prev(LinkAt(list, k - 1))
  }

  /** What free_list_remove makes of page `i` when it unlinks the page at place `k`. */
  function Relinked(ps: seq<Page>, list: seq<nat>, k: nat, i: nat): Page
    requires k < |list| && i < |ps|
  {
    ps[i].(next := if k > 0 && i == list[k-1] then LinkAt(list, k + 1) else ps[i].next,
           u2 := if k + 1 < |list| && i == list[k+1] then Prev(LinkAt(list, k - 1)) else ps[i].u2)
  }

  /** The neighbours of the unlinked page come to point at each other. */
  lemma RelinkedAt(ps: seq<Page>, ps': seq<Page>, list: seq<nat>, k: nat, j: nat)
    requires k < |list| && j < |list| - 1 && |ps'| == |ps|
    requires var i := if j < k then j else j + 1;
      && PageLinked(ps, list, i)
      && (list[i] < |ps| ==> ps'[list[i]] == Relinked(ps, list, k, list[i]))
      && (k > 0 && list[i] == list[k-1] ==> i == k - 1)
      && (k + 1 < |list| && list[i] == list[k+1] ==> i == k + 1)
    ensures PageLinked(ps', list[..k] + list[k+1..], j)
  {
    var i := if j < k then j else j + 1;
    var rest := list[..k] + list[k+1..];
    assert rest[j] == list[i];
    assert LinkAt(rest, j + 1) == LinkAt(list, if i + 1 == k then k + 1 else i + 1);
    assert LinkAt(rest, j - 1) == LinkAt(list, if i == k + 1 then k - 1 else i - 1);
  }

  lemma UnlinkKeepsLinks(ps: seq<Page>, ps': seq<Page>, list: seq<nat>, k: nat, head: Link, head': Link)
    requires Linked(ps, list, head) && k < |list| && |ps'| == |ps|
    requires head' == if k == 0 then LinkAt(list, 1) else head
    requires forall i :: 0 <= i < |ps| && i != list[k] ==> ps'[i] == Relinked(ps, list, k, i)
    ensures Linked(ps', Without(list, list[k]), head')
  {
    WithoutIndex(list, k);
    var rest := list[..k] + list[k+1..];
    forall j | 0 <= j < |rest| ensures PageLinked(ps', rest, j) {
      var i := if j < k then j else j + 1;
      assert PageLinked(ps, list, i) && list[i] != list[k];
      RelinkedAt(ps, ps', list, k, j);
    }
  }

  lemma LinkedFrame(ps: seq<Page>, ps': seq<Page>, list: seq<nat>, head: Link)
    requires Linked(ps, list, head) && |ps'| == |ps|
    requires forall i :: 0 <= i < |ps| && i in list ==> ps'[i] == ps[i]
    ensures Linked(ps', list, head)
  {
    forall k | 0 <= k < |list| ensures PageLinked(ps', list, k) {
      assert PageLinked(ps, list, k) && list[k] in list;
    }
  }

  /** free_list_push on values. */
  lemma PushKeepsLinks(ps: seq<Page>, ps': seq<Page>, list: seq<nat>, head: Link, page: nat)
    requires Linked(ps, list, head) && |ps'| == |ps| && page < |ps| && page !in list
    requires ps'[page].next == head && ps'[page].u2 == Prev(Null)
    requires forall i :: 0 <= i < |ps| && i != page ==>
      ps'[i] == if head == To(i) then ps[i].(u2 := Prev(To(page))) else ps[i]
    ensures Linked(ps', [page] + list, To(page))
  {
    var list' := [page] + list;
    forall k | 0 <= k < |list'| ensures PageLinked(ps', list', k) {
      assert LinkAt(list', k + 1) == LinkAt(list, k);
      if k > 0 {
        assert PageLinked(ps, list, k - 1) && list'[k] == list[k-1] && list[k-1] in list;
        assert k > 1 ==> LinkAt(list', k - 1) == LinkAt(list, k - 2);
      }
    }
  }

  class Pmm {
    const db: array<Page>
    var freeList: Link
    var freePages: nat
    /** The free list in link order. */
    ghost var list: seq<nat>

    ghost predicate Sound()
      reads this, db
    {
      && Linked(db[..], list, freeList)
      && freePages == |list|
      && (forall i :: 0 <= i < db.Length ==> PageOk(db[i]))
    }

    ghost function Abs(): State
      reads this, db
    {
      State(Views(db[..]), list)
    }

    ghost predicate Valid()
      reads this, db
    {
      Sound() && FrameStates.Valid(Abs())
    }

    /** pfn_db_init leaves every page FREE or RESERVED with no references, and page 0 RESERVED;
        pmm_init threads the FREE ones together, the highest frame first. */
    constructor (pages: array<Page>)
      requires pages.Length > 0 && pages[0].flags.reserved
      requires forall i :: 0 <= i < pages.Length ==>
        && pages[i].refcount == 0 && !pages[i].flags.alloc && !pages[i].flags.dirty
        && !pages[i].flags.shared && !pages[i].flags.cow
        && (pages[i].flags.free <==> !pages[i].flags.reserved)
      modifies pages
      ensures Valid() && db == pages
      ensures forall i :: 0 <= i < pages.Length ==> pages[i].flags == old(pages[i].flags)
      ensures forall i, j :: 0 <= i < j < |list| ==> list[i] > list[j]
    {
      db := pages;
      freeList, freePages, list := Null, 0, [];
      new;
      var i := 0;
      while i < db.Length
        invariant 0 <= i <= db.Length
        invariant Linked(db[..], list, freeList) && freePages == |list|
        invariant forall j :: 0 <= j < db.Length ==> db[j].flags == old(pages[j].flags) && db[j].refcount == 0
        invariant forall j :: 0 <= j < i ==> db[j].u2.Prev? && (db[j].flags.free <==> j in list)
        invariant forall k :: 0 <= k < |list| ==> list[k] < i
        invariant forall a, b :: 0 <= a < b < |list| ==> list[a] > list[b]
      {
        ghost var ps := db[..];
        db[i] := db[i].(next := Null, u2 := Prev(Null));
        assert i !in list;
        LinkedFrame(ps, db[..], list, freeList);
        if db[i].flags.free {
          FreeListPush(i);
          freePages := freePages + 1;
        }
        i := i + 1;
      }
    }

    lemma Listed(i: nat)
      requires Valid() && i < db.Length
      ensures i in list <==> db[i].flags.free
    {
      assert Abs().frames[i] == View(db[i]);
    }

    method FreeListPush(page: nat)
      requires page < db.Length && Linked(db[..], list, freeList) && page !in list
      modifies this`freeList, this`list, db
      ensures Linked(db[..], list, freeList) && list == [page] + old(list)
      ensures db[page] == old(db[page]).(u2 := Prev(Null), next := old(freeList))
      ensures forall i :: 0 <= i < db.Length && i != page ==>
        db[i] == old(db[i]) || (i in old(list) && old(db[i]).u2.Prev? && db[i].u2.Prev?
          && db[i] == old(db[i]).(u2 := db[i].u2))
    {
      ghost var ps := db[..];
      if freeList.To? { assert PageLinked(ps, list, 0) && list[0] in list; }
      db[page] := db[page].(u2 := Prev(Null));
      db[page] := db[page].(next := freeList);
      if freeList.To? {
        db[freeList.pfn] := db[freeList.pfn].(u2 := Prev(To(page)));
      }
      PushKeepsLinks(ps, db[..], list, freeList, page);
      freeList := To(page);
      list := [page] + list;
    }

    method FreeListRemove(page: nat)
      requires page in list && Linked(db[..], list, freeList)
      modifies this`freeList, this`list, db
      ensures Linked(db[..], list, freeList) && list == Without(old(list), page)
      ensures page < db.Length && db[page] == old(db[page]).(next := Null, u2 := Prev(Null))
      ensures forall i :: 0 <= i < db.Length && i != page ==>
        db[i] == old(db[i]) || (i in old(list) && old(db[i]).u2.Prev? && db[i].u2.Prev?
            && db[i] == old(db[i]).(next := db[i].next, u2 := db[i].u2))
    {
      ghost var k :| 0 <= k < |list| && list[k] == page;
      ghost var ps := db[..];
      assert PageLinked(ps, list, k);
      if k > 0 { assert PageLinked(ps, list, k - 1) && list[k-1] in list; }
      if k + 1 < |list| { assert PageLinked(ps, list, k + 1) && list[k+1] in list; }
      var prev := db[page].u2.prev;
      var next := db[page].next;
      if prev.To? {
        db[prev.pfn] := db[prev.pfn].(next := next);
      } else {
        freeList := next;
      }
      if next.To? {
        db[next.pfn] := db[next.pfn].(u2 := Prev(prev));
      }
      db[page] := db[page].(next := Null, u2 := Prev(Null));
      UnlinkKeepsLinks(ps, db[..], list, k, old(freeList), freeList);
      list := Without(list, page);
    }

    /** Unlinking a FREE page leaves every other page as it was, links aside. */
    method Unlink(page: nat)
      requires Valid() && page < db.Length && db[page].flags.free
      modifies this, db
      ensures Linked(db[..], list, freeList) && list == Without(old(list), page) && freePages == |list|
      ensures page !in list
      ensures db[page] == old(db[page]).(next := Null, u2 := Prev(Null))
      ensures forall i :: 0 <= i < db.Length && i != page ==> View(db[i]) == old(View(db[i])) && PageOk(db[i])
    {
      Listed(page);
      WithoutMembers(list, page);
      hide Linked, FrameStates.Valid;
      FreeListRemove(page);
      if freePages > 0 {
        freePages := freePages - 1;
      }
    }

    /** Overwriting a page that is not on the list. */
    lemma Overwritten(ps: seq<Page>, i: nat)
      requires i < db.Length == |ps| && i !in list && Linked(ps, list, freeList)
      requires db[..] == ps[i := db[i]]
      ensures Linked(db[..], list, freeList)
      ensures Views(db[..]) == Views(ps)[i := View(db[i])]
    {
      LinkedFrame(ps, db[..], list, freeList);
    }

    /** A FREE page becomes an allocated one with a single reference. */
    method TakePage(i: nat)
      requires Valid() && i < db.Length && db[i].flags.free
      modifies this, db
      ensures Valid() && Abs() == Take(old(Abs()), i)
    {
      ghost var was := Abs();
      Listed(i);
      TakeValid(was, i);
      hide Linked, FrameStates.Valid, Without;
      Unlink(i);
      ghost var ps := db[..];
      var f := db[i].flags;
      db[i] := db[i].(flags := f.(free := false, reserved := false, shared := false, cow := false, alloc := true));
      db[i] := db[i].(refcount := 1);
      db[i] := db[i].(u2 := Sharers(1));
      Overwritten(ps, i);
      assert Views(db[..]) == was.frames[i := FRESH];
    }

    method AllocPage() returns (page: Link)
      requires Valid()
      modifies this, db
      ensures Valid()
      ensures page.Null? <==> old(Abs()).free == []
      ensures page.Null? ==> Abs() == old(Abs())
      ensures page.To? ==> page.pfn == old(Abs()).free[0] < db.Length && Abs() == Alloc(old(Abs()))
    {
      if freeList.Null? {
        return Null;
      }
      page := freeList;
      assert page.pfn == list[0] && list[0] in list;
      Listed(page.pfn);
      hide Linked, FrameStates.Valid, Pmm.Sound;
      TakePage(page.pfn);
    }

    method Retain(i: nat)
      requires Valid() && i < db.Length
      modifies this, db
      ensures Valid() && Abs() == FrameStates.Retain(old(Abs()), i)
    {
      ghost var was := Abs();
      Listed(i);
      RetainValid(was, i);
      hide Linked, FrameStates.Valid, Without;
      if db[i].flags.free {
        Unlink(i);
        ghost var qs := db[..];
        db[i] := db[i].(flags := db[i].flags.(free := false, reserved := false, alloc := true));
        Overwritten(qs, i);
      }
      ghost var ps := db[..];
      db[i] := db[i].(refcount := db[i].refcount + 1);
      if db[i].refcount == 1 {
        db[i] := db[i].(u2 := Sharers(1));
      }
      Overwritten(ps, i);
      assert Views(db[..]) == FrameStates.Retain(was, i).frames;
    }

    method Release(i: nat)
      requires Valid() && i < db.Length
      modifies this, db
      ensures Valid() && Abs() == FrameStates.Release(old(Abs()), i)
    {
      ghost var was := Abs();
      Listed(i);
      ReleaseValid(was, i);
      assert FrameOk(was.frames[i]);
      hide Linked, FrameStates.Valid;
      if db[i].refcount == 0 {
        return;
      }
      ghost var ps := db[..];
      db[i] := db[i].(refcount := db[i].refcount - 1);
      if db[i].refcount > 0 || db[i].flags.reserved {
        Overwritten(ps, i);
        assert Views(db[..]) == FrameStates.Release(was, i).frames;
        return;
      }
      db[i] := db[i].(flags := db[i].flags.(alloc := false, shared := false, cow := false, free := true));
      db[i] := db[i].(u2 := Sharers(0));
      Overwritten(ps, i);
      if !db[i].flags.dirty {
        FreeListPush(i);
        freePages := freePages + 1;
      }
      assert Views(db[..]) == FrameStates.Release(was, i).frames;
    }

    /** The union is read as a count only on allocated pages. */
    method Share(i: nat)
      requires Valid() && i < db.Length && db[i].flags.alloc
      modifies this, db
      ensures Valid() && Abs() == FrameStates.Share(old(Abs()), i)
    {
      ghost var was, ps := Abs(), db[..];
      Listed(i);
      ShareValid(was, i);
      hide Linked, FrameStates.Valid;
      var sharers := db[i].u2.count;
      if !db[i].flags.shared {
        db[i] := db[i].(flags := db[i].flags.(shared := true));
        sharers := if sharers == 0 then 1 else sharers;
      }
      db[i] := db[i].(u2 := Sharers(sharers + 1));
      Overwritten(ps, i);
    }

    method Unshare(i: nat)
      requires Valid() && i < db.Length && db[i].flags.alloc
      modifies this, db
      ensures Valid() && Abs() == FrameStates.Unshare(old(Abs()), i)
    {
      ghost var was, ps := Abs(), db[..];
      Listed(i);
      ShareValid(was, i);
      hide Linked, FrameStates.Valid;
      if !db[i].flags.shared {
        return;
      }
      if db[i].u2.count > 0 {
        db[i] := db[i].(u2 := Sharers(db[i].u2.count - 1));
      }
      if db[i].u2.count <= 1 {
        db[i] := db[i].(flags := db[i].flags.(shared := false));
      }
      Overwritten(ps, i);
    }

    /** What one more mapping of a page costs, and what dropping one gives back. */
    method AddMapping(i: nat)
      requires Valid() && i < db.Length && db[i].flags.alloc
      modifies this, db
      ensures Valid() && Abs() == Add(old(Abs()), i)
    {
      hide Linked, FrameStates.Valid, Pmm.Sound, FrameStates.Share, FrameStates.Retain;
      Share(i);
      Retain(i);
    }

    method DropMapping(i: nat)
      requires Valid() && i < db.Length && db[i].flags.alloc
      modifies this, db
      ensures Valid() && Abs() == Drop(old(Abs()), i)
    {
      hide Linked, FrameStates.Valid, Pmm.Sound, FrameStates.Unshare, FrameStates.Release;
      Unshare(i);
      Release(i);
    }

    /** pmm_page_mark_cow and pmm_page_clear_cow. */
    method SetCow(i: nat, on: bool)
      requires Valid() && i < db.Length && db[i].flags.alloc
      modifies this, db
      ensures Valid() && Abs() == FrameStates.SetCow(old(Abs()), i, on)
    {
      ghost var was, ps := Abs(), db[..];
      Listed(i);
      ShareValid(was, i);
      hide Linked, FrameStates.Valid;
      db[i] := db[i].(flags := db[i].flags.(cow := on));
      Overwritten(ps, i);
    }

    /** The search of pmm_alloc_pages: the jump past the first busy page of a window misses nothing. */
    method FindRun(count: nat) returns (start: Link)
      requires Valid() && count > 0
      ensures start.Null? <==> forall i: nat :: !FreeRun(Abs(), i, count)
      ensures start.To? ==> FreeRun(Abs(), start.pfn, count)
      ensures start.To? ==> forall i: nat :: i < start.pfn ==> !FreeRun(Abs(), i, count)
    {
      hide Linked, FrameStates.Valid;
      var i := 0;
      while i + count <= db.Length
        invariant 0 <= i
        invariant forall h: nat :: h < i ==> !FreeRun(Abs(), h, count)
        decreases db.Length - i
      {
        var j := 0;
        while j < count && db[i + j].flags.free
          invariant 0 <= j <= count && i + count <= db.Length
          invariant forall h :: i <= h < i + j ==> Abs().frames[h].kind.Free?
        {
          j := j + 1;
        }
        if j == count {
          assert FreeRun(Abs(), i, count);
          return To(i);
        }
        assert !Abs().frames[i + j].kind.Free?;
        i := i + j + 1;
      }
      return Null;
    }

    method TakePages(i: nat, count: nat)
      requires Valid() && FreeRun(Abs(), i, count)
      modifies this, db
      ensures Valid() && Abs() == TakeRun(old(Abs()), i, count)
    {
      hide Linked, FrameStates.Valid, Pmm.Sound;
      ghost var was := Abs();
      var j := 0;
      while j < count
        invariant 0 <= j <= count
        invariant Valid() && Abs() == TakeRun(was, i, j)
      {
        assert FreeRun(was, i, j);
        TakeRunEffect(was, i, j);
        assert Abs().frames[i + j].kind.Free?;
        TakePage(i + j);
        j := j + 1;
      }
    }

    method AllocPages(count: nat) returns (page: Link)
      requires Valid()
      modifies this, db
      ensures Valid()
      ensures Abs() == Step(old(Abs()), AllocMany(count))
      ensures page.Null? <==> RunStart(old(Abs()), count) < 0
      ensures page.To? ==> page.pfn == RunStart(old(Abs()), count)
    {
      hide Linked, FrameStates.Valid, Pmm.Sound;
      if count == 0 {
        page := Null;
      } else if count == 1 {
        page := AllocPage();
      } else {
        page := FindRun(count);
        if page.To? {
          TakePages(page.pfn, count);
        }
      }
    }
  }
}
