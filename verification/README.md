# Verified model of the lapis kernel core

This project models the parts of the lapis kernel where memory, processes and time are kept, and proves what they
promise over whole runs. Every module follows one source file: values and functions say what an operation means, classes
hold the state the source changes in place, and each method is proved against those functions.

- `FrameStates`, `FrameAllocator`: physical frames. The doubly linked free list with its union field refines a sequence.
- `PageTables`, `Paging`: the four-level tables refine a partial map from pages to frames; empty tables are reclaimed.
- `RedBlack`, `RbLinks`, `RbTree`: red-black trees as values with a zipper, the effect of every link store, and the
  linked tree itself.
- `Vmas`, `AreaTrees`: the areas of an address space as an ordered sequence with their meaning address by address, and
  the same operations over the linked tree.
- `CowPages`, `AreaPages`, `AddressSpaces`, `Protection`, `Runs`: fork, write faults and changes of protection. A
  machine of address spaces that share frames refines independent private memories over every run.
- `HeapBlocks`, `Kheap`: the slab heap on top of the frame allocator.
- `SchedStates`, `Sched`: the feedback queue on one CPU and its linked form.
- `Spinlocks`: locks under every interleaving of any number of CPUs, and the lock order of the scheduler.
- `FdTables`, `Procs`, `Cpio`: descriptor tables, the process tree, and the archive reader.
- `Seqs`, `Words`: sequences without duplicates, for the linked lists, and machine words.

In some places the code departs from its evident intent. The model follows the code, and each such place
has a lemma or method with the exact condition: `Vmas.UnmapExact` (an area that reaches beyond the end stays),
`AreaTrees.FixedMapExact` and `AreaTrees.HintedMapExact` (overlap tests), `AreaPages.RefusedMapLoses` (a refused map
takes pages away), `Protection.Protect` (a shared page made writable; `Protection.Leak` is a run that shows it),
`Paging.PageTable.MapPage`, `AddressSpaces.Machine.Store` and `AreaPages.UserSpaceStaysOpen` (tables hung for a page that
is not for user code stay closed to it; `Protection.ShutOut` is a run whose store faults), `AreaPages.FramesAccounted`
(the frames of unmapped pages do not come back),
`SchedStates.RunLosesExact` and `SchedStates.SelfPickExact` (a thread that picks itself; `SchedStates.SelfPickedIsLost`
is a run that loses it), `Cpio.ContentsInsideExact` and `Cpio.AlignedEndExact` (contents beyond the end of an archive;
`Cpio.GreedyRead` has the archives), `Spinlocks.RestoreExact` (a waiting CPU overwrites the saved interrupt flag; `Spinlocks.ContenderDecides`
is an interleaving). `Vmas.UnmapMayKeep`, `AreaTrees.FixedMapMayOverlap` and `AreaTrees.HintedMapMayOverlap` are inputs
for the first three.

I/O, clocks, randomness and the hardware are parameters: the time of a boost check, the number of a new process, the
address of a new descriptor entry, whether the heap has room for a descriptor table, the address of an archive.

## Model

| member | source | states |
|---|---|---|
| `FrameStates.EveryRun` | kernel/src/mm/pmm.c:78-289 | in every run of the allocator the free list holds exactly the FREE frames without duplicates, a frame is SHARED exactly when its share count exceeds 1, and the reference count of each frame is what it was plus the references handed out less those taken back |
| `FrameStates.StepKeepsValid` | kernel/src/mm/pmm.c:78-289 | each operation keeps those rules and changes each reference count by exactly what it hands out or takes back |
| `FrameStates.StepPromised` | kernel/src/mm/pmm.c:78-289 | what each operation promises frame by frame: which frame changes, which of its counts and marks, when it joins or leaves the free list and at which end |
| `FrameStates.LowestRun` | kernel/src/mm/pmm.c:257-285 | the lowest-numbered run of free frames of a given length, or -1 exactly when there is none |
| `FrameStates.RunTaken` | kernel/src/mm/pmm.c:243-289 | an allocated run was free, does not contain frame 0, becomes fresh, and no other frame changes |
| `FrameAllocator.Pmm.constructor` | kernel/src/mm/pmm.c:46-76 | threading the FREE pages gives a sound doubly linked list, the highest frame first |
| `FrameAllocator.Pmm.FreeListPush` | kernel/src/mm/pmm.c:37-44 | the links spell out the old list with the page in front |
| `FrameAllocator.Pmm.FreeListRemove` | kernel/src/mm/pmm.c:19-35 | the links spell out the old list without the page, wherever it stood |
| `FrameAllocator.Pmm.AllocPage` | kernel/src/mm/pmm.c:78-100 | takes the head of the free list, and fails exactly when the list is empty |
| `FrameAllocator.Pmm.Retain` | kernel/src/mm/pmm.c:111-133 | the linked pages do what the abstract step does, also for a page still on the free list |
| `FrameAllocator.Pmm.Release` | kernel/src/mm/pmm.c:135-168 | the linked pages do what the abstract step does; the page returns to the list with its last reference unless it is reserved |
| `FrameAllocator.Pmm.Share` | kernel/src/mm/pmm.c:170-187 | the union field is read only as the share count that was last stored in it |
| `FrameAllocator.Pmm.Unshare` | kernel/src/mm/pmm.c:189-210 | the share count falls and the flag goes with the last sharer but one |
| `FrameAllocator.Pmm.SetCow` | kernel/src/mm/pmm.c:212-230 | sets or clears the copy-on-write mark and nothing else |
| `FrameAllocator.Pmm.FindRun` | kernel/src/mm/pmm.c:257-266 | the search that skips ahead of a page in use misses no run: it finds the lowest one |
| `FrameAllocator.Pmm.AllocPages` | kernel/src/mm/pmm.c:243-289 | the lowest run, taken off the list, or nothing exactly when there is none |
| `PageTables.IndicesDeterminePage` | kernel/src/mm/paging.c:49-64 | the four table indices of a user address determine its page |
| `PageTables.UnmappedRootIsBare` | kernel/src/mm/paging.c:169-212 | if no table but the root is empty and nothing is mapped, the root is the only table |
| `Paging.PageTable.PteNext` | kernel/src/mm/paging.c:88-106 | follows or creates one table; a created one is the next free frame, hung empty below an entry that has exactly the flags asked for, and entries already there keep theirs |
| `Paging.PageTable.LeafTable` | kernel/src/mm/paging.c:108-125 | the walk to the leaf table; without permission to create it changes nothing, and with it every entry it adds has the flags asked for while all others keep theirs |
| `Paging.PageTable.GetPaddr` | kernel/src/mm/paging.c:361-375 | the frame that the denoted partial map gives the page, and nothing is allocated |
| `PageTables.PathRoom` | kernel/src/mm/paging.c:178-212 | the tables that go with an unmapped page free at least as many frames as mapping the page again will need tables |
| `Paging.PageTable.MapPage` | kernel/src/mm/paging.c:214-267 | updates the denoted map at exactly one page, counts the mapping once, and drops the frame that was mapped before; fails exactly when fewer frames are free than tables are missing on the way. Every entry it hangs on the way is writable, executable, and for user code exactly when the page is, and entries already there keep their flags, so that the page has the access it was to have exactly when it is not for user code or every older entry on the way lets user code past. What is free or a table grows by one exactly when the last reference to the frame before goes |
| `PageTables.AccessExact` | kernel/src/mm/paging.c:233-260 | the access that the four entries on the way to a page grant together is that of its leaf, except that user code also needs an open path |
| `PageTables.MappedAccess` | kernel/src/mm/paging.c:233-260 | after a map the page has the access it was to have exactly when it is not for user code or the tables that were there already let user code past |
| `Paging.PageTable.Translate` | kernel/src/mm/paging.c:88-125 | a walk that reads the four entries finds the frame of the denoted map with the access they grant together |
| `Paging.PageTable.UnmapPage` | kernel/src/mm/paging.c:325-359 | removes exactly one page from the denoted map, drops its reference and returns the tables that became empty, each a free frame again; the entries that stay keep their flags |
| `Paging.PageTable.TableEmpty` | kernel/src/mm/paging.c:169-176 | true exactly when every entry is absent |
| `Paging.PageTable.FreeEmpty` | kernel/src/mm/paging.c:178-212 | prunes the empty tables on the path, changes no mapping, and leaves no empty table but perhaps the root |
| `Paging.PageTable.FreeLevel` | kernel/src/mm/paging.c:127-167 | takes down everything below a table: each mapped frame loses one reference per mapping and each table is returned once |
| `Paging.PageTable.PteAlloc` | kernel/src/mm/paging.c:393-419 | a new empty root beside the others |
| `Paging.PageTable.PteFree` | kernel/src/mm/paging.c:421-451 | one address space goes, with all its tables, each a free frame again; the others keep their tables, the flags on the way and their mappings |
| `Paging.PageTable.Run` | kernel/src/mm/paging.c:214-391 | over any sequence of maps and unmaps the walk denotes what the operations mean, other roots are untouched and no reference is lost; a map fails exactly when fewer frames are free than its path lacks tables, so with three free frames for each map all succeed, no empty table is left behind, and a space that maps nothing any more has only its root |
| `PageTables.FundedRun` | kernel/src/mm/paging.c:214-391 | with three free frames for each map still to come, every operation of a run is done |
| `PageTables.RunLeavesRootBare` | kernel/src/mm/paging.c:169-212 | after a run in which all was done and which leaves the space without pages, its root is its only table |
| `Paging.PageTable.Lifetime` | kernel/src/mm/paging.c:393-451 | creating an address space, any run on frames also held elsewhere, and freeing it restores every reference count and returns every table frame; with a frame for the root and three for each map nothing fails |
| `Vmas.FindExact` | kernel/src/mm/vmm.c:62-93 | the search misses no area that contains the address |
| `Vmas.GapIsHighest` | kernel/src/mm/vmm.c:106-138 | the gap search ends with the highest page-aligned free window below the hint, and with 0 exactly when there is none |
| `Vmas.InsertApart` | kernel/src/mm/vmm.c:320-327 | inserting an area keeps the areas apart exactly when its range was free |
| `Vmas.InsertMeans` | kernel/src/mm/vmm.c:306-327 | a new area gives its addresses its flags and leaves all others alone |
| `Vmas.SplitInserts` | kernel/src/mm/vmm.c:332-357 | the new half goes exactly where the tree would insert it |
| `Vmas.SplitMeansNothing` | kernel/src/mm/vmm.c:332-357 | a split changes no address |
| `Vmas.UnmapMeans` | kernel/src/mm/vmm.c:359-408 | an address in the range goes, unless its area reaches beyond the end |
| `Vmas.UnmapExact` | kernel/src/mm/vmm.c:359-408 | unmapping removes exactly the range if and only if no area straddles its end |
| `Vmas.UnmapMayKeep` | kernel/src/mm/vmm.c:379-398 | the first page of an area of three pages: the call succeeds and nothing goes |
| `Vmas.UnmapGood` | kernel/src/mm/vmm.c:359-408 | unmapping keeps the areas apart and page aligned |
| `Vmas.ProtectMeans` | kernel/src/mm/vmm.c:410-480 | every address of the mapped part of the range gets the preserved old bits and the other new bits, all others keep their flags |
| `Vmas.MergeBit` | kernel/src/mm/vmm.c:446-447 | bit by bit: the allocated, lazy and present bits of an area stay what they were, and every other bit becomes what was asked for |
| `Vmas.ProtectHole` | kernel/src/mm/vmm.c:424-431 | the call fails exactly when the range has a hole; the areas stay apart |
| `Vmas.AccessibleExact` | kernel/src/mm/vmm.c:540-563 | access is granted exactly when every address of the range has each of the bits asked for, one by one |
| `AreaTrees.AreaTree.FindVma` | kernel/src/mm/vmm.c:62-93 | over the red-black tree: the area the sequence search finds |
| `AreaTrees.AreaTree.FindVmaNext` | kernel/src/mm/vmm.c:95-104 | the first area at or above the address |
| `AreaTrees.AreaTree.FindFreeGap` | kernel/src/mm/vmm.c:106-138 | the gap of the sequence search, which becomes the new hint |
| `AreaTrees.AreaTree.VmaSplit` | kernel/src/mm/vmm.c:332-357 | splits in place: the tree then holds the split sequence, and it fails exactly for an address not inside the area |
| `AreaTrees.AreaTree.Map` | kernel/src/mm/vmm.c:273-330 | where the new area goes and when it is refused; the area count follows the tree |
| `AreaTrees.MapMeans` | kernel/src/mm/vmm.c:273-330 | without an address the areas gain one in the highest free window if there is one; with an address they gain one there, unless it must stay clear of the area that covers the address, or one begins there already; the new area has exactly the bits asked for and the allocated bit unless it is lazy |
| `AreaTrees.AreaTree.Unmap` | kernel/src/mm/vmm.c:359-408 | the tree afterwards holds the unmapped sequence; the second split never happens |
| `AreaTrees.AreaTree.SweepTurn` | kernel/src/mm/vmm.c:389-404 | the successor saved before a removal is the next area to visit |
| `AreaTrees.AreaTree.Protect` | kernel/src/mm/vmm.c:410-480 | the tree afterwards holds the protected sequence, and the call fails exactly when that meets a hole |
| `AreaTrees.AreaTree.IsAccessible` | kernel/src/mm/vmm.c:540-563 | the walk from area to area decides the access of the whole range: yes exactly when it is not empty and every address has each bit asked for |
| `AreaTrees.AreaTree.RangeOverlaps` | kernel/src/mm/vmm.c:191-198 | says yes exactly when the first byte is mapped |
| `AreaTrees.AnonymousMapApart` | kernel/src/mm/vmm.c:283-330 | a map at a place of the kernel's choice always keeps the areas apart |
| `AreaTrees.FixedMapExact` | kernel/src/mm/vmm.c:290-327 | a fixed map that passes the overlap test keeps the areas apart exactly when no area begins inside it |
| `AreaTrees.FixedMapMayOverlap` | kernel/src/mm/vmm.c:191-198 | a fixed map that passes the test and overlaps all the same |
| `AreaTrees.HintedMapExact` | kernel/src/mm/vmm.c:290-327 | a map at a non-zero hint is taken without an overlap check: the areas stay apart exactly when the range was free, or when an area begins at the hint and the map is refused |
| `AreaTrees.HintedMapMayOverlap` | kernel/src/mm/vmm.c:290-327 | a hint below an area, for more than fits: the map is made and overlaps |
| `AreaPages.RefusedMapLoses` | kernel/src/mm/vmm.c:312-322 | a map refused by the tree after its pages were mapped takes away every page of its range, also those of the areas there |
| `CowPages.SharedIsReadOnly` | kernel/src/mm/vmm.c:704-729 | a frame that two places map is writable through neither |
| `CowPages.MappedStaysAllocated` | kernel/src/mm/vmm.c:140-170 | a mapped frame is off the free list with at least two references and two sharers, and dropping one mapping does not return it |
| `CowPages.StoreInPlace` | kernel/src/mm/vmm.c:565-652 | a store through a writable entry is seen at that page and nowhere else |
| `CowPages.ForkPage` | kernel/src/mm/vmm.c:704-729 | sharing a page with a child keeps the invariant and gives the child the same contents |
| `CowPages.CopyPage` | kernel/src/mm/vmm.c:618-648 | resolving a write fault by a copy keeps the invariant and changes no contents |
| `CowPages.DropPage` | kernel/src/mm/vmm.c:172-189 | unmapping one page keeps the invariant and the contents of every other page |
| `CowPages.UnmarkedIsAlone` | kernel/src/mm/vmm.c:704-729 | a page whose frame is not marked copy-on-write, or has fewer than four sharers, has its frame to itself |
| `CowPages.BetweenUnmapAndMap` | kernel/src/mm/vmm.c:461-462 | between the unmap and the map of a protect the frame is not freed and can be mapped |
| `CowPages.RemapKeepsRecords` | kernel/src/mm/vmm.c:461-462 | the unmap and map of a protect leave every mapped frame with the counts and marks it had |
| `Protection.ReprotectPage` | kernel/src/mm/vmm.c:457-471 | one page mapped again with the new flags: contents, counts and free memory are kept, and memory for the tables is never short |
| `Protection.ProtectPages` | kernel/src/mm/vmm.c:453-473 | the same for all pages of an area, and for no other page |
| `Protection.ProtectArea` | kernel/src/mm/vmm.c:446-473 | the area gets the merged flags and its pages the access they allow |
| `Protection.Protect` | kernel/src/mm/vmm.c:410-480 | the whole call: the areas become the protected ones, the pages up to the end or the first hole get the new access, nothing anyone sees changes, and spaces stay private exactly when the range does not become writable or none of its frames is mapped elsewhere; a caller can rely on the marks and share counts |
| `Protection.Leak` | kernel/src/mm/vmm.c:410-480 | the run map, fork, protect, store: the store of the parent shows in the child |
| `Protection.ShutOut` | kernel/src/mm/paging.c:233-239 | the run that maps a page that is not for user code and below it one that is: the area of the second allows a store, memory is free, and the store faults |
| `AddressSpaces.Machine.Create` | kernel/src/mm/vmm.c:200-218 | a new empty address space with one table, all others as they were |
| `AddressSpaces.Machine.MapAnonymous` | kernel/src/mm/vmm.c:273-330 | a zero-filled area in the highest gap, nothing else changes; it fails without effect when there is no gap. It takes exactly one frame for each page besides its tables, and the tables it hangs let user code past exactly when the area is for user code |
| `AddressSpaces.Machine.AllocatePages` | kernel/src/mm/vmm.c:140-170 | every page of the area gets a zeroed frame of its own, exactly one each besides tables |
| `AddressSpaces.Machine.FreePages` | kernel/src/mm/vmm.c:172-189 | every page of the area goes, no other page changes, and every table that goes is a free frame again |
| `AddressSpaces.Machine.Unmap` | kernel/src/mm/vmm.c:359-408 | the areas become the unmapped ones, and exactly the pages they no longer cover are forgotten; every table that goes is a free frame again and no other frame is |
| `AddressSpaces.Machine.Fork` | kernel/src/mm/vmm.c:654-742 | the child has the same areas and the same contents as its parent, who notices nothing; no frame is taken but for tables |
| `AddressSpaces.Machine.PageFault` | kernel/src/mm/vmm.c:565-652 | no fault changes what any space sees; a write that the area allows ends with a writable private page or, exactly when no frame is free, out of memory; the branch that reuses a frame in place is never reached |
| `AddressSpaces.Machine.Store` | kernel/src/mm/vmm.c:565-652 | based on the access that all four entries on the way grant: a store takes place exactly when the area allows it, the tables let user code past and a copy that is needed can be made, and then changes exactly one byte of the storing space; out of memory exactly when a copy is needed and no frame is free; otherwise it faults without effect |
| `AddressSpaces.Machine.Destroy` | kernel/src/mm/vmm.c:220-244 | the space is gone and every other space sees what it saw; no table of it is left, the free frames have grown by exactly the number of its tables, at least one, and every table of the other spaces stays |
| `AddressSpaces.Machine.CreateAndDestroy` | kernel/src/mm/vmm.c:200-244 | creating and destroying a space restores the tables, the spaces and the number of free frames |
| `AddressSpaces.Machine.AccessOfArea` | kernel/src/mm/vmm.c:19-39 | the hardware lets code do with a page what its area says: executable and uncached exactly when the area is, for user code exactly when the area is and the tables on the way are, writable only when the area is, and then unless its frame is marked copy-on-write |
| `Runs.Perform` | kernel/src/mm/vmm.c:200-742 | each call does to areas and memory what it means for spaces that share nothing, takes no more frames than its cost, takes exactly the frames of its pages besides tables, shares no pages but those of a forked space and its child, and bars user code from no tables but those of a space where it maps pages that are not for user code |
| `Runs.SafeProtect` | kernel/src/mm/vmm.c:410-480 | a change of protection that gives no write access to a page marked and counted as shared keeps spaces private and changes no contents |
| `Runs.Run` | kernel/src/mm/vmm.c:200-742 | any run of create, map, fork, store, unmap, protect and destroy refines independent private memories, step by step; a call is made exactly when it makes sense, its cost is free, it gives no write access to a shared page and the page it stores to is not behind a table that bars user code; only a fork makes pages shared, those of the parent and the child; the roots of the page tables are exactly the spaces throughout |
| `AreaPages.FundedCallsAreMade` | kernel/src/mm/vmm.c:200-742 | with memory for all calls at the start, every call of the run that makes sense, is harmless and stores to a page that can be reached is made |
| `AreaPages.UnforkedStaysUnshared` | kernel/src/mm/vmm.c:410-742 | in every run the pages of a space that is not forked are never shared, so that every change of its protection is harmless |
| `AreaPages.UserSpaceStaysOpen` | kernel/src/mm/vmm.c:273-742 | in every run, while every page mapped in a space is for user code no table of it bars user code, so that every store its areas allow can be made |
| `AreaPages.FramesAccounted` | kernel/src/mm/vmm.c:140-742 | over a run the frames that are free or hold tables shrink by exactly the pages mapped, and at most one for each store: the pages of areas that are unmapped or destroyed never come back, every table does |
| `AreaPages.AccessibleMayStore` | kernel/src/mm/vmm.c:540-563 | where write access for the user is reported, every store of the range is one the areas allow, and nowhere else |
| `AreaPages.RunsAreIsolated` | kernel/src/mm/vmm.c:200-742 | a run of calls on other spaces, and of forks of this one, leaves the areas and the contents of a space alone |
| `AreaPages.CallsAreIsolated` | kernel/src/mm/vmm.c:565-742 | a call on one space leaves the areas and the contents of every other space alone |
| `RedBlack.HeightIsLogarithmic` | kernel/src/util/rbtree.c:34-261 | a tree that follows the rules has height at most twice the binary logarithm of the number of nodes plus one |
| `RedBlack.BalancedPlug` | kernel/src/util/rbtree.c:34-261 | a tree in a context follows the rules exactly when the parts fit |
| `RedBlack.InsertRecolor` | kernel/src/util/rbtree.c:77-81 | recolouring moves the only violation two levels up and keeps the order |
| `RedBlack.InsertTurn` | kernel/src/util/rbtree.c:83-86 | the inner rotation keeps the violation where it is and the order as it was |
| `RedBlack.InsertRaise` | kernel/src/util/rbtree.c:87-89 | the outer rotation ends the violation and keeps the order |
| `RedBlack.RemoveLower` | kernel/src/util/rbtree.c:153-158 | a red sibling is turned into a black one, the shortage and the order stay |
| `RedBlack.RemoveBlame` | kernel/src/util/rbtree.c:159-162 | the shortage moves one level up, the order stays |
| `RedBlack.RemoveSwing` | kernel/src/util/rbtree.c:164-169 | an inner red nephew becomes an outer one, the shortage and the order stay |
| `RedBlack.RemoveRepair` | kernel/src/util/rbtree.c:170-176 | an outer red nephew ends the shortage, the order stays |
| `RedBlack.RemoveOne` | kernel/src/util/rbtree.c:218-227 | taking out a node with one child leaves at most a shortage of one |
| `RedBlack.RemoveTwo` | kernel/src/util/rbtree.c:228-254 | the same for a node whose successor takes its place |
| `RedBlack.RemoveTwoOrder` | kernel/src/util/rbtree.c:228-254 | putting the successor in the place of a node cuts exactly that node out of the order |
| `RbTrees.RbTree.RotateLeft` | kernel/src/util/rbtree.c:34-48 | the stores turn the linked tree into the rotated one, parent links included |
| `RbTrees.RbTree.RotateRight` | kernel/src/util/rbtree.c:57-71 | the mirror image |
| `RbTrees.RbTree.InsertFixup` | kernel/src/util/rbtree.c:73-110 | ends with a tree that follows all rules, in the same order |
| `RbTrees.RbTree.Insert` | kernel/src/util/rbtree.c:112-140 | the node goes to its place and nothing else moves in the order; -1 exactly when the key is taken; the size is exact |
| `RbTrees.RbTree.Transplant` | kernel/src/util/rbtree.c:142-147 | one node makes way for another below its parent |
| `RbTrees.RbTree.RemoveFixup` | kernel/src/util/rbtree.c:149-210 | ends with a tree that follows all rules, in the same order |
| `RbTrees.RbTree.Remove` | kernel/src/util/rbtree.c:212-261 | cuts exactly the node out of the order, keeps all rules and writes to no payload |
| `RbTrees.RbTree.Find` | kernel/src/util/rbtree.c:263-278 | the node with the key, and null exactly when there is none |
| `RbTrees.RbTree.LowerBound` | kernel/src/util/rbtree.c:280-297 | the first node with a key at or above the given one |
| `RbTrees.RbTree.UpperBound` | kernel/src/util/rbtree.c:299-314 | the first node with a key above the given one |
| `RbTrees.RbTree.First` | kernel/src/util/rbtree.c:316-325 | the first node of the order, or null |
| `RbTrees.RbTree.Last` | kernel/src/util/rbtree.c:327-336 | the last node of the order, or null |
| `RbTrees.RbTree.Next` | kernel/src/util/rbtree.c:338-352 | the node after the given one in the order, or null |
| `RbTrees.RbTree.Prev` | kernel/src/util/rbtree.c:354-368 | the node before the given one in the order, or null |
| `RbTrees.RbTree.RemoveVisited` | kernel/src/util/rbtree.h:46-52 | the successor saved before a removal stands in the place of the removed node afterwards |
| `RbTrees.RbTree.RemoveAll` | kernel/src/util/rbtree.h:46-52 | the visit-and-remove loop visits every node once, in order |
| `HeapBlocks.BlockPlace` | kernel/src/mm/kheap.c:68-90 | a block in use is 16-byte aligned, behind its slab header, inside its slab and as long as was asked for |
| `HeapBlocks.BlocksApart` | kernel/src/mm/kheap.c:167-252 | two blocks in use share no byte |
| `HeapBlocks.BlocksClearHeaders` | kernel/src/mm/kheap.c:51-93 | no block in use touches a slab header |
| `HeapBlocks.Pop` | kernel/src/mm/kheap.c:225-244 | taking the head of a free list keeps the books and hands out a block that was not in use |
| `HeapBlocks.Push` | kernel/src/mm/kheap.c:295-300 | putting a block back keeps the books |
| `HeapBlocks.Enlist` | kernel/src/mm/kheap.c:128-132 | adding a slab to its list keeps the books |
| `HeapBlocks.Delist` | kernel/src/mm/kheap.c:134-151 | removing a slab from anywhere in its list keeps the books |
| `HeapBlocks.FullIsEmpty` | kernel/src/mm/kheap.c:302-305 | a slab whose objects are all free holds no block in use |
| `HeapBlocks.OnlyBlock` | kernel/src/mm/kheap.c:283-287 | a slab with room for one object that is in use has nothing free and no other block |
| `Kheaps.Kheap.constructor` | kernel/src/mm/kheap.c:153-165 | eight empty caches |
| `Kheaps.Kheap.SlabCreate` | kernel/src/mm/kheap.c:51-93 | a page of threaded free objects; fails exactly when there is no frame |
| `Kheaps.Kheap.CacheRemove` | kernel/src/mm/kheap.c:134-151 | the walk finds the slab and unlinks it |
| `Kheaps.Kheap.Kmalloc` | kernel/src/mm/kheap.c:167-252 | a new block of the size asked for, all other blocks and all frames outside the heap as they were; refused, without effect, exactly when the cache has no slab with room and no frame is free, or for a large block no long enough run of free frames exists; while its cache has a slab with room no frame is taken |
| `Kheaps.Kheap.Kfree` | kernel/src/mm/kheap.c:263-310 | exactly the block is given back: its object is free again or its pages are, so that in every slab free objects and blocks in use still add up and no cache keeps two idle slabs; frames that leave the heap are free and no other frame changes |
| `Kheaps.Kheap.OneBlockSlab` | kernel/src/mm/kheap.c:283-287 | the shortcut for slabs with room for one object never destroys a slab that is on a list |
| `Kheaps.Kheap.SlabDestroy` | kernel/src/mm/kheap.c:95-113 | every page of the slab is returned to the frame allocator, and no other frame changes |
| `Kheaps.Kheap.Run` | kernel/src/mm/kheap.c:167-310 | in every run on live pointers, from the heap at its start to the heap at its end, the books are in order after each call, the blocks in use are those handed out and not freed, none is handed out twice, frames are traded with the free list only, and a request is refused exactly when there is no block; with nothing in use at the end the heap holds at most one page for each cache, and every other frame is back |
| `Kheaps.InUseThroughout` | kernel/src/mm/kheap.c:167-310 | after every call of a run the blocks in use are those handed out and not yet freed |
| `HeapBlocks.ObjectsConserved` | kernel/src/mm/kheap.c:167-310 | in every slab the free objects and the blocks in use are together as many as it has room for; a large slab has exactly its one block |
| `HeapBlocks.NothingInUse` | kernel/src/mm/kheap.c:263-310 | with nothing in use no large slab is left, and of each cache at most one slab, all of it free |
| `Kheaps.RunReturns` | kernel/src/mm/kheap.c:167-310 | over any run frames that are not of the heap are as they were; with nothing in use at the end the heap holds at most one page for each cache, and one that began empty has given back every other frame, counted exactly |
| `HeapBlocks.CapacityExact` | kernel/src/mm/kheap.c:68-76 | a slab has as many objects as fit behind its header, and no fewer |
| `Kheaps.BigPages` | kernel/src/mm/kheap.c:179-181 | the least number of pages that hold the header, the padding and the block |
| `Kheaps.SmallNeverRefused` | kernel/src/mm/kheap.c:167-252 | with pages for all calls at the start no request of at most 2048 bytes is refused |
| `SchedStates.EveryRun` | kernel/src/sched/sched.c:162-190 | in every run on one CPU each queued thread is ready and at its own level, and the current thread is in no queue |
| `SchedStates.QueuedOnce` | kernel/src/sched/sched.c:30-42 | no thread stands in two places of the queues |
| `SchedStates.BoostOk` | kernel/src/sched/sched.c:256-278 | a boost keeps the rules and the set of queued threads |
| `SchedStates.ScheduleOk` | kernel/src/sched/sched.c:357-404 | scheduling keeps the rules, and of all threads but the idle one those on the CPU or queued are the ones queued before and the current one if it was running |
| `SchedStates.ScheduleKeepsRunnable` | kernel/src/sched/sched.c:357-404 | every runnable thread on the CPU or queued stays so exactly when the current thread is not marked as ready |
| `SchedStates.ScheduleLosesExact` | kernel/src/sched/sched.c:357-404 | where nobody is lost, scheduling loses nobody exactly under that condition |
| `SchedStates.RunLosesExact` | kernel/src/sched/sched.c:162-499 | a run loses nobody at any point exactly when no thread is dequeued and none that has picked itself schedules before it blocks |
| `SchedStates.SelfPickExact` | kernel/src/sched/sched.c:369-399 | the current thread picks itself and stays marked as ready exactly when it runs and no queue up to its level has a thread, or it is idle and ready with all queues empty |
| `SchedStates.SelfPickedIsLost` | kernel/src/sched/sched.c:357-404 | a run from the start in which nobody is lost until a thread that picked itself schedules again |
| `SchedStates.WaitIsBounded` | kernel/src/sched/sched.c:247-278 | a thread at place i of the topmost queue is dispatched by the (i+1)-th later schedule at the latest, whatever is enqueued or boosted meanwhile |
| `SchedStates.ScheduleMoves` | kernel/src/sched/sched.c:357-404 | unless a boost is due the current thread, if it runs, joins the end of its queue, the first thread of the first queue that has one is dispatched, and every queue keeps its order; with all empty the idle thread runs |
| `SchedStates.BoostRescues` | kernel/src/sched/sched.c:247-278 | once 200 ms have passed since the last boost the next schedule dispatches a queued thread, however low its level, or leaves it in the topmost queue |
| `SchedStates.NoBoostYet` | kernel/src/sched/sched.c:256-278 | before that no schedule changes the level of any thread |
| `SchedStates.NoStarvation` | kernel/src/sched/sched.c:247-404 | once a boost is due any queued thread is on the CPU after at most as many further schedules as threads were queued, whatever happens meanwhile, unless it is dequeued |
| `SchedStates.StepPromised` | kernel/src/sched/sched.c:162-499 | what each operation but scheduling promises of queues, statuses and levels, without naming how it does it |
| `Sched.RunQueue.MlfqPush` | kernel/src/sched/sched.c:30-42 | the links spell out the queue with the thread at its end |
| `Sched.RunQueue.MlfqPop` | kernel/src/sched/sched.c:44-61 | the head of the queue, which the links then spell out without it |
| `Sched.RunQueue.MlfqRemove` | kernel/src/sched/sched.c:63-79 | the links spell out the queue without the thread, wherever it stood |
| `Sched.RunQueue.PickNext` | kernel/src/sched/sched.c:247-254 | the head of the first queue that is not empty |
| `Sched.RunQueue.MaybeBoost` | kernel/src/sched/sched.c:256-278 | when due, all levels become their concatenation at level 0 |
| `Sched.RunQueue.Enqueue` | kernel/src/sched/sched.c:162-176 | the linked queues do what the abstract step does, and the count stays the sum of the levels |
| `Sched.RunQueue.Dequeue` | kernel/src/sched/sched.c:178-190 | the linked queues do what the abstract step does, and the count stays the sum of the levels |
| `Sched.RunQueue.Schedule` | kernel/src/sched/sched.c:357-404 | the linked queues do what the abstract step does, and the count stays the sum of the levels |
| `Sched.RunQueue.MarkCurrent` | kernel/src/sched/sched.c:464-499 | marks the thread on the CPU as blocked or dead, as the abstract step does |
| `Sched.RunQueue.Demote` | kernel/src/sched/sched.c:419-444 | a used-up quantum moves the current thread one level down, as the abstract step does |
| `Sched.RunQueue.Run` | kernel/src/sched/sched.c:162-499 | any run of the linked queues goes through the abstract states, and after every operation the count is the number of queued threads |
| `Spinlocks.StepSafe` | kernel/src/util/spinlock.c:6-52 | every step of every CPU keeps the lock words, the owners and the holders in agreement |
| `Spinlocks.EveryInterleaving` | kernel/src/util/spinlock.c:6-52 | so does every interleaving of any number of CPUs |
| `Spinlocks.MutualExclusion` | kernel/src/util/spinlock.c:18-36 | a lock has one holder at most |
| `Spinlocks.AlarmExact` | kernel/src/util/spinlock.c:13-16 | the recursive-deadlock report fires exactly when the caller holds the lock |
| `Spinlocks.ReleaseByOwner` | kernel/src/util/spinlock.c:38-43 | the owner test of a release by a holder never fails |
| `Spinlocks.ScheduleOrdered` | kernel/src/sched/sched.c:209-245 | scheduling and stealing take the run-queue locks in ascending order only |
| `Spinlocks.NoCycle` | kernel/src/sched/sched.c:222-236 | the waits-for relation on the locks has no cycle |
| `Spinlocks.SchedulerNeverDeadlocks` | kernel/src/sched/sched.c:170-245 | however the calls of any number of CPUs interleave, some CPU can get on until all are done |
| `Spinlocks.NoAlarm` | kernel/src/util/spinlock.c:13-16 | with the locks taken in order the recursion report never fires |
| `Spinlocks.LastSaved` | kernel/src/util/spinlock.c:6-10 | under every interleaving an interrupt lock holds the interrupt flag of the CPU that entered last, whether or not it has got the lock |
| `Spinlocks.RestoreExact` | kernel/src/util/spinlock.c:6-52 | a release gives back the interrupt flag its acquire found exactly when no CPU has entered since or the last one to do so had the same flag |
| `Spinlocks.ContenderDecides` | kernel/src/util/spinlock.c:6-52 | an interleaving of two CPUs after which the holder has the interrupt flag of the one that waits |
| `FdTables.SlotsAreAlive` | kernel/src/sched/fd.c:125-199 | no slot of any table names a freed entry |
| `FdTables.NothingLeaks` | kernel/src/sched/fd.c:52-97 | with all tables and handles gone every entry has been freed |
| `FdTables.FdWorld.EntryUnref` | kernel/src/sched/fd.c:47-73 | an entry is freed exactly when no slot and no handle is left |
| `FdTables.FdWorld.TableUnref` | kernel/src/sched/fd.c:75-97 | the last reference takes the table down and gives up what its slots held |
| `FdTables.FdWorld.Grow` | kernel/src/sched/fd.c:99-123 | the table grows to the requested size at least, up to the limit, and keeps its slots; refused exactly beyond the limit or when memory is short |
| `FdTables.FdWorld.Install` | kernel/src/sched/fd.c:152-180 | the lowest free descriptor, of a larger table if need be, or an error exactly at the limit or when memory for it is short |
| `FdTables.FdWorld.InstallAt` | kernel/src/sched/fd.c:125-150 | the given descriptor, or the error that applies |
| `FdTables.FdWorld.Get` | kernel/src/sched/fd.c:182-199 | the entry in the slot, with a reference of the caller's own |
| `FdTables.FdWorld.Close` | kernel/src/sched/fd.c:201-220 | empties the slot and gives up its reference, and answers success; an empty slot is an error |
| `FdTables.FdWorld.Dup` | kernel/src/sched/fd.c:222-232 | the entry stands at the lowest free descriptor as well |
| `FdTables.FdWorld.Dup2` | kernel/src/sched/fd.c:234-259 | the entry stands at the new descriptor as well, whatever stood there before, and every other slot is as it was; the same descriptor twice changes nothing |
| `FdTables.FdWorld.Clone` | kernel/src/sched/fd.c:261-293 | a copy of the slots with references of its own |
| `FdTables.FdWorld.Create` | kernel/src/sched/fd.c:10-28 | a table of empty slots, or none when memory is short |
| `FdTables.FdWorld.Perform` | kernel/src/sched/fd.c:10-293 | each call answers and changes the tables and the handles as its meaning on plain sequences says, the errors included, and keeps the promise of the call slot by slot |
| `FdTables.StepPromised` | kernel/src/sched/fd.c:10-293 | what each call promises slot by slot and count by count, without naming how it does it: which slot changes, to what, and which stay |
| `FdTables.FdWorld.Run` | kernel/src/sched/fd.c:10-293 | every run, with any handles outstanding between calls, answers and ends as the calls mean; each reference count is the number of slots that name the entry plus the handles, the entry is alive exactly while that is not 0, and once all tables and handles are given up no entry is left |
| `FdTables.RunLocal` | kernel/src/sched/fd.c:10-293 | a run of calls on other tables leaves a table as it was |
| `FdTables.CloneIndependent` | kernel/src/sched/fd.c:261-293 | a clone has the slots of the original, and no run on the clone changes any other table |
| `FdTables.HandlesOutlive` | kernel/src/sched/fd.c:47-73 | whatever a run closes, replaces or gives up, a handle stays until its holder drops it |
| `Procs.OnOneList` | kernel/src/sched/task.c:358-363 | every unreaped child is on exactly one children list, its parent's |
| `Procs.MoveOk` | kernel/src/sched/task.c:669-681 | handing an orphan to init keeps the tree in order |
| `Procs.ProcTable.Fork` | kernel/src/sched/task.c:365-413 | the child is first on the list of its parent, and nothing else changes |
| `Procs.ProcTable.Exit` | kernel/src/sched/task.c:657-690 | the process becomes a zombie once, and its children all go to init |
| `Procs.ProcTable.Wait` | kernel/src/sched/task.c:692-750 | reaps the first zombie child asked for and reports its exit code; reports no child exactly when none matches |
| `Procs.ProcTable.Ref` | kernel/src/sched/task.c:98-105 | one handle more, and the tree as it was |
| `Procs.ProcTable.Unref` | kernel/src/sched/task.c:133-147 | a process is freed exactly when it has been reaped and no handle is left |
| `Procs.ProcTable.Perform` | kernel/src/sched/task.c:358-750 | each call answers and changes statuses and children as its meaning says |
| `Procs.StepPromised` | kernel/src/sched/task.c:358-750 | what each call promises of statuses, parents and lists, without naming how it does it |
| `Procs.WaitReportsExit` | kernel/src/sched/task.c:657-750 | a reaped child is reported with the code it exited with |
| `Procs.RunConserves` | kernel/src/sched/task.c:358-750 | in every run the unreaped processes at the end and the reaped ones are, without overlap, the unreaped ones at the start and the forked ones |
| `Procs.ProcTable.Run` | kernel/src/sched/task.c:358-750 | every run answers as the calls mean, the parent pointers and lists agree throughout, nobody is reaped twice and nobody vanishes unreaped |
| `Cpio.ParseNumber` | kernel/src/util/memory.c:224-263 | the loops compute the number that the digits denote, modulo 2 to the 64 |
| `Cpio.ParseHexExact` | kernel/src/fs/initrd/cpio.c:17-22 | parsing eight hexadecimal digits undoes printing any 32-bit number |
| `Cpio.Reader.ReadEntry` | kernel/src/fs/initrd/cpio.c:24-96 | one entry as a function of the bytes and the position |
| `Cpio.Parse` | kernel/src/fs/initrd/cpio.c:98-139 | all entries up to the end marker, or failure |
| `Cpio.NextAdvances` | kernel/src/fs/initrd/cpio.c:64-95 | the read position advances with every entry |
| `Cpio.ContentsInsideExact` | kernel/src/fs/initrd/cpio.c:71-93 | the name of an entry lies inside the archive; its contents do exactly when rounding up the end of the name has not passed the end |
| `Cpio.ParsedInsideExact` | kernel/src/fs/initrd/cpio.c:71-139 | the same for all entries of an archive |
| `Cpio.AlignedEndExact` | kernel/src/fs/initrd/cpio.c:71-139 | every archive of n bytes is read inside its bounds exactly when its end is a 4-byte boundary or it is shorter than a header |
| `Cpio.GreedyRead` | kernel/src/fs/initrd/cpio.c:71-139 | an archive of each other length that is read and ends with an entry whose contents begin beyond its end |
| `Cpio.AllNamed` | kernel/src/fs/initrd/cpio.c:24-139 | whatever the bytes, every entry the reader records stands behind a header that begins with one of the two magic numbers, and its name lies in the archive and ends with a NUL byte |
| `Cpio.RoundTrip` | kernel/src/fs/initrd/cpio.c:24-139 | any list of legal entries, printed with an end marker at a 4-byte boundary, is read back as exactly that list |

## Left out

- FrameAllocator.Pmm.Share: only for allocated pages, which is all the kernel shares; elsewhere the union field holds a link.
- FrameAllocator.Pmm.Unshare: only for allocated pages, for the same reason.
- FrameAllocator.Pmm.SetCow: only for allocated pages, as the kernel uses it.
- Paging.PageTable.MapPage: only for allocated frames, so that every mapping is counted.
- Paging.PageTable.PteNext: the flags for a new table are those map_page asks for, writable, executable and cached, for user code or not; no caller asks for others.
- Paging.PageTable.LeafTable: asks for the same flags.
- Paging.PageTable.PteAlloc: the copy of the kernel half of the root is not modelled.
- FrameAllocator.Pmm.Retain: the reference count is unbounded; the 32-bit counter of the source wraps.
- Vmas.UnmapExact: addresses and sizes are unbounded; a range that wraps around 64 bits is not modelled.
- Runs.Run: calls for which memory is short are passed over, as are stores to a page behind a table that bars user code, lazy, shared and fixed areas, and changes of protection that give write access to shared pages, because after a failed map or fork the source leaves a half-built state behind, and such changes need not keep spaces private (`Protection.Protect` says exactly when they do).
- Protection.Protect: a change that makes an area shared is excluded, as shared areas are.
- Protection.ProtectArea: excludes the same change.
- AddressSpaces.Machine.MapAnonymous: asks for four free frames a page, the most it can take, because a map_page that finds no frame for a table is not noticed by the source and leaves a page of the area unmapped. The source keeps the reference of the allocation beside that of the mapping, so that a frame which is mapped and unmapped keeps one reference and is not free again; `AreaPages.FramesAccounted` says how many.
- AddressSpaces.Machine.AllocatePages: asks for the same memory; the path without memory is not modelled.
- AddressSpaces.Machine.Fork: asks for three free frames a page and one for the root, the most it can take; lazy areas are not copied by the source and are excluded; their pages are not modelled.
- AreaTrees.AreaTree.Map: takes the allocation of the pages as given; the pages are the subject of AddressSpaces, and those of a refused map of `AreaPages.RefusedMapLoses`.
- AreaTrees.AreaTree.Unmap: does not touch pages; they are the subject of `AddressSpaces.Machine.Unmap`.
- AreaTrees.AreaTree.Protect: does not touch pages; they are the subject of `Protection.Protect`.
- AreaTrees.AreaTree.VmaSplit: allocation of the new area always succeeds; the out-of-memory path is not modelled.
- AddressSpaces keeps the areas of a space as a sequence; that the linked tree computes the same sequences is `AreaTrees`.
- map_paddr, map_mmio and huge entries: they take no reference and would break the count of mappings.
- The kernel half of the page tables (slots 256 to 511), TLB invalidation and the address-space switch.
- vmm_brk: it takes a lock that the functions it calls take again.
- krealloc: it copies by a recorded size that is capped at 65535; the archive's entry array is a growable sequence here.
- Kheaps.Kheap.Kfree: only null and blocks in use are freed; what the magic-number test does to other pointers is not modelled.
- SchedStates.EveryRun: one CPU only; stealing decrements the count of both queues, so the counts hold on one CPU only.
- Time accounting of sched_tick: only its effect on the level of the current thread is modelled.
- Spinlocks.SchedulerNeverDeadlocks: no CPU is interrupted while it holds a run-queue lock, so no CPU runs a second script inside a first one; memory ordering is sequentially consistent.
- FdTables.FdWorld.Open: what an entry refers to (files, directories) and the reading and writing through it.
- Procs.ProcTable.Wait: one pass; the caller that has to wait calls again.
- Procs.ProcTable.Fork: a process that has exited does not fork; the source does not test this, but only a running process gets there.
- Procs.ProcTable.Exit: init does not exit; the source has no other parent for its children.
- Procs.ProcTable.Run: process numbers are not used again.
- Cpio.AlignedEndExact: archives of 2 to the 64 bytes and more do not fit in memory.
- Cpio.RoundTrip: the archive is shorter than 2 to the 64 bytes. A name size of 0 is read as in the source, except that bytes behind the end of the archive never match the end marker.
- cpio_archive_extract and the file systems behind it.
- The terminal: its cell grid and escape automaton would add many easy members.
- Assembly, interrupts, device drivers, logging, file systems, semaphores and wait queues.
