# The memory core of MIMIK, verified

MIMIK is a small x86-64 kernel. This project models its memory core in Dafny and proves what its four
layers promise each other:

1. **Four-level page tables** (`arch/x86_64/mm/vm.c`). The walkers search, map, unmap, re-back and re-flag
   runs of pages in a 512-ary tree of tables. They reach a child table only through a small temporary window,
   whose own table is reached by a self-referential mapping.
2. **Physical frames** (`mm/pm.c` over `structs/bitmap.c`): a packed bitmap with a cached cursor and counters.
3. **Fresh memory and slabs** (`mm/mm.c` over `structs/list.c`).
4. **Clients**: the protection of the kernel image (`kernel.c`) and the lookup in the initial file system
   (`common/initfs.c`).

## How the model is built

Physical memory is a map from frames to tables of 512 entries. The page tables are a class
(`VirtualMemory.PageTables`) whose fields are that memory, the window's table and cursor, and the processor's
cache of translations, which is filled on access. Beside them stands a ghost tree. The predicate `PageTree.Tree`
says that memory holds this tree, that no table frame occurs twice, and `PageTables.Valid` adds that all table
frames are locked in the allocator and that the window works. Every walker is a method with the loops and
recursion of the original; it is proved to do to memory what a function on trees says (`PageMap.MapFrom`,
`PageFlag.FlagFrom`, `PageUnmap.UnmapFrom`, `PageFlag.Back`), to keep the tree and to restore the window on every
exit. What these functions mean is proved about them separately, against `PageTree.Lookup` (the leaf entry of a
page) and `PageTree.Reach` (its rights combined over all levels), which in turn are proved to be what the
processor's own walk through memory finds.

| layer | files |
|---|---|
| entries, memory, the processor's walk | `Paging.dfy` |
| the tree, its frame conditions, its flat view | `PageTree.dfy`, `PageView.dfy` |
| mapping, re-flagging, unmapping, searching, on trees | `PageMap.dfy`, `PageFlag.dfy`, `PageUnmap.dfy`, `PageSearch.dfy` |
| runs within one leaf table, order of visits, straight runs, what unmapping clears | `PageRuns.dfy`, `PageOrder.dfy`, `PageStraight.dfy`, `PageStrike.dfy` |
| cached translations | `Tlb.dfy` |
| what `vm_init` adds, window and walkers | `PageWay.dfy`, `VirtualMemory.dfy` |
| entry points for the kernel's own tables | `KernelSpace.dfy` |
| frames, machine words | `FrameSet.dfy`, `Bitmap.dfy`, `PhysicalMemory.dfy`, `Machine.dfy` |
| fresh memory, slabs, the choice among them, the heap, lists | `MemoryMap.dfy`, `Slab.dfy`, `SlabClass.dfy`, `Heap.dfy`, `List.dfy` |
| the start of the core, clients | `Boot.dfy`, `KernelRemap.dfy`, `Initfs.dfy` |

Addresses inside the walkers are counted in pages: a frame is a physical address divided by 4096, a page is the
36-bit number of the four 9-bit indices. An entry of the tree that is present but leads elsewhere (the identity
alias of the boot tables, the way to the window) is `Foreign`; operations are asked to keep off such entries, and
a run that would step into one is called lost.

Results named `halted` say that an assertion of the original stops the kernel.

**Supervisor writes.** The kernel's own writes are taken as allowed wherever a walk leads. This assumes CR0.WP to be
clear, as after a reset: the boot code sets CR0.PG and leaves WP alone (`arch/x86_64/boot/stub.S:130-132`), and
without WP the right to write does not bind supervisor accesses (Intel SDM Volume 3A, section 4.6.1). Rights in the
contracts are what the walk grants, which binds everything else. The assumption is not idle: the window lies below the
same root entry as the kernel image, and the second and third call of `kernel_remap` take the right to write from that
entry before they write on through the window (`KernelRemap.NextWrite`, `KernelRemap.ProtectCode`,
`KernelRemap.ProtectData`).

**Boot tables.** They are an assumed initial state, and what is assumed is asked of the memory the boot code leaves
behind (`Boot.HoldsTree`): with aliases as `Foreign` entries it holds a tree. `vm_init` writes at most three entries of it
(`VirtualMemory.InitOpens`), every page that does not come by one of them walks as before (`PageWay.WalkKept`), and the
tree that memory holds afterwards is derived: the way to the window added, and nothing else changed
(`PageWay.WayTree`, `Boot.AfterInitView`). Every later operation then asks for the tables to be locked
(`PageTables.Adopt`). The source does not establish that: `setup_paging` puts the boot tables behind the boot information
(`arch/x86_64/boot/paging.S:20-35`), while `pm_init` locks reserved memory and the kernel image only
(`mm/pm.c:69-70`). `Boot.LockedIff` and `Boot.Start` give the exact condition on the memory map, and
`Boot.FirstRequest` with `Boot.SuchAMap` the case where a boot table is handed out.

The heap asks for one thing more, `KernelSpace.AllBacked`: every mapped frame is locked. `setup_paging` maps the boot
information and the boot tables as well as the image (`arch/x86_64/boot/paging.S:36-60`), so this needs their frames to be
safe in the same way (`Boot.BackedIff`); otherwise a page of the heap may share its frame with one of these. `Boot.BringUp`
joins it all in the order of `kernel.c`. `Boot.StartEmpty` shows the simplest state in which tables and mapped frames
are locked.

Where the code does not do what its shape suggests, the model follows the code, and the exact condition is proved:

- A run of pages is visited as consecutive pages exactly if it leaves no table that it entered at a non-zero
  index, which is a comparison of its length with products of what the indices leave
  (`PageOrder.StraightConsecutive`, `PageOrder.CrossingSkips`).
- Mapping a run maps the range of its pages, and nothing else, exactly if the run is straight
  (`KernelSpace.MappingStraightIff`). The search does not tell: a strict `mm_map` of a region that is not straight may find
  room, pass every assertion and succeed, having given new frames to pages of the region that were mapped before
  (`MemoryMap.MmStraightIff`, `MemoryMap.MmReplaces`, with an input in `MemoryMap.CrossingReplaces`).
- Unmapping clears pages in one leaf table only, the first one it meets, and there as many as the whole run asked
  for (`PageStrike.UnmapExact`, `PageStrike.StrikeHere`, `PageStrike.StrikeNext`, `PageStrike.UnmapsRangeIff`).
- `vm_init` opens the way to the window exactly if one of three entries was absent (`VirtualMemory.InitOpens`).
- `vmk_map_pages` without a hint is stopped by the alignment assertion exactly if the image does not end at a page
  boundary, which the linker script leaves open (`KernelSpace.VmkMapPages`).
- `vmk_set_backing` invalidates nothing, and leaves no stale translation exactly if none was cached
  (`Tlb.BackCoherent`).
- Locking a range cuts it into pages from its first byte on, wherever that lies in its frame. All of its bytes are in
  locked frames if it starts at a frame boundary, and otherwise exactly if its offset brings no further page
  (`PhysicalMemory.CoveredIff`).
- Growing a slab adds a chunk exactly if its chunks are smaller than a page (`Slab.AllocSlab`); the class of 4096
  bytes is the one for which it does not.
- `mm_alloc` counts one class for each power of two, where there are two for most of them: a request of 8 bytes or fewer is
  stopped by an assertion, and the chunk handed out is large enough exactly for 9 to 48 bytes (`Heap.Heap.Request`,
  `SlabClass.GetSlabFromSize`). An assertion of `mm_free` stops it for every chunk in use (`Heap.FreeStops`).
- `kernel_remap` depends on the order of its calls (`KernelRemap.LastCallLimits`), and leaves pages between its
  sections as they were (`KernelRemap.CleanIff`).
- `initfs_lookup` is stopped by an assertion exactly if the name is too long, or the first file with the name is not of
  type 1 or has the empty name (`Initfs.InitfsLookup`).

## Model

| member | source | states |
|---|---|---|
| Paging.SetPte | arch/x86_64/mm/vm.c:75-82 | a written entry is present, leads to the given frame cut to 40 bits, grants exactly the rights the flags name, and has every other bit clear |
| Paging.Retag | arch/x86_64/mm/vm.c:168-179 | an upper entry with new rights leads to the same table and keeps its other bits; it never forbids execution |
| PageTree.WalkAgrees | arch/x86_64/mm/vm.c:481-502 | wherever memory holds a page tree, the processor's walk through four levels (Intel SDM 3A, 4.5 and 4.6) finds exactly the frame and combined rights the tree says |
| PageTree.GraftExtended | arch/x86_64/mm/vm.c:274-317 | coming back from a child table that grew by frames locked meanwhile, the tables are a tree again: no table frame occurs twice and no table outside the subtree was touched |
| PageTree.TreeFrame | arch/x86_64/mm/vm.c:156-166 | a tree depends on its own tables only, so writing any other frame cannot change it |
| PageMap.MapWrites | arch/x86_64/mm/vm.c:274-317 | for all tables and start indices, mapping fills the first absent slots in lexicographic order with consecutive frames, each page ending with exactly the requested rights over all levels, and changes no other translation |
| PageMap.MapKeeps | arch/x86_64/mm/vm.c:274-317 | entries before the start index are left alone and no frame is released on the way |
| PageRuns.MapOneLeaf | arch/x86_64/mm/vm.c:274-317 | a free run within one leaf table is mapped whole, page k to frame k with the requested rights; at most one new table a level is taken; all other translations stay |
| PageStraight.MapStraight | arch/x86_64/mm/vm.c:274-317 | the same for any straight run over any number of tables: no foreign entry is met, and the range of pages is mapped page by page |
| PageStraight.FitsFreeRange | arch/x86_64/mm/vm.c:198-272 | where a search finds room for a straight run, all pages of the range are unmapped |
| PageStraight.RangeStraight | arch/x86_64/mm/vm.c:288-309 | a mapping that fills as many pages as asked for, none of them outside the range, was a straight run |
| PageStraight.FirstFilled | arch/x86_64/mm/vm.c:288-309 | the first pages of any run, as long as they are free and straight, are mapped one by one, whatever follows |
| PageStraight.MappedOrKept | arch/x86_64/mm/vm.c:288-309 | every page stays as it was, or was free and is mapped now: no run changes an existing translation |
| PageOrder.VacantExact | arch/x86_64/mm/vm.c:288-309 | the slots visited are exactly the unmapped pages none of whose indices lies below the start index of its level |
| PageOrder.VacantSorted | arch/x86_64/mm/vm.c:288-309 | they are visited in ascending order of pages |
| PageOrder.StraightConsecutive | arch/x86_64/mm/vm.c:288-309 | how many slots are visited, as a product of what the start indices leave of their tables; and the first n of them are n consecutive pages if and only if, at every level below, n does not exceed that product or the start index is zero (lower indices are not reset) |
| PageOrder.SlotsCounted | arch/x86_64/mm/vm.c:288-309 | the number of slots visited is the product of what the start indices leave of their tables |
| PageOrder.CrossingSkips | arch/x86_64/mm/vm.c:288-309 | a run of two pages from the last entry of a leaf table is such a case |
| PageFlag.FlagWrites | arch/x86_64/mm/vm.c:576-614 | a successful re-flagging visits exactly the first slots in lexicographic order, all of them mapped, keeps their frames and leaves each with exactly the requested rights over all levels |
| PageFlag.FlagTranslates | arch/x86_64/mm/vm.c:576-614 | whatever its outcome, re-flagging changes no translation |
| PageOrder.FlagMissingIff | arch/x86_64/mm/vm.c:590-610 | for any run that stays inside the tree, a missing mapping is reported if and only if one of the slots to be visited is unmapped |
| PageRuns.FlagOneLeaf | arch/x86_64/mm/vm.c:576-614 | within one leaf table it succeeds if and only if all pages of the run are mapped; then these pages alone get new leaf rights, and every page of the table is limited by the rights asked for last |
| PageFlag.BackWrites | arch/x86_64/mm/vm.c:531-553 | backing a page replaces the frame of exactly that page and keeps its rights |
| PageUnmap.PerEntry | arch/x86_64/mm/vm.c:181-187 | an entry covers 2^27, 2^18, 512 or 1 pages, by level, which are the weights of the four indices in a page number |
| PageUnmap.UnmapClears | arch/x86_64/mm/vm.c:404-439 | for all tables and runs, the pages invalidated are those whose leaf slots were cleared, and no translation is removed without invalidating its page |
| PageUnmap.UnmapCounts | arch/x86_64/mm/vm.c:404-439 | whatever the run, the number returned is the number of pages invalidated plus a multiple of 512 for absent tables stepped over |
| PageUnmap.SpentIdles | arch/x86_64/mm/vm.c:404-439 | once a lower index has run off its table, nothing more is cleared or invalidated |
| PageUnmap.UnmapOneLeaf | arch/x86_64/mm/vm.c:404-439 | a run within one leaf table: exactly its pages become untranslatable; at least that many pages are counted, and exactly that many provided the leaf table exists |
| PageStrike.UnmapExact | arch/x86_64/mm/vm.c:404-439 | for any run: exactly the pages cleared, namely as many as asked for, as far as the table goes, in the first leaf table met; every other translation stays |
| PageStrike.UnmapStrikes | arch/x86_64/mm/vm.c:404-439 | slots are cleared in one leaf table at most, and which |
| PageStrike.StrikeHere | arch/x86_64/mm/vm.c:404-439 | where the first page's leaf table exists, the run clears there and stops at its end |
| PageStrike.StrikeNext | arch/x86_64/mm/vm.c:414-433 | where it is absent and the next one exists, the run clears the full number of pages again in the next one, more than asked for |
| PageStrike.FlushedStruck | arch/x86_64/mm/vm.c:411-413 | the pages invalidated are exactly the pages cleared, one by one in ascending order |
| PageStrike.UnmapsRangeIff | arch/x86_64/mm/vm.c:404-439 | exactly the range asked for becomes untranslatable if and only if the pages cleared and those of the range differ in unmapped pages alone |
| PageStrike.UnmapsRangeHere | arch/x86_64/mm/vm.c:404-439 | where the first page's leaf table exists: if and only if the pages of the range beyond that table were unmapped already |
| PageStrike.CountStruck | arch/x86_64/mm/vm.c:404-439 | the number returned is the number of pages cleared plus a multiple of 512 |
| PageSearch.FlagsMatch | arch/x86_64/mm/vm.c:189-196 | an existing mapping can match user flags only |
| PageSearch.FitsOneLeaf | arch/x86_64/mm/vm.c:198-272 | within one leaf table there is room at the indices if and only if all pages of the run are unmapped |
| PageSearch.MisfitTaken | arch/x86_64/mm/vm.c:198-272 | if there is no room, some page of the run is taken, and which |
| PageSearch.FitsIff | arch/x86_64/mm/vm.c:198-272 | for a run of any length, at any level: there is room at the indices if and only if, where the way along them ends, every entry from the index on is absent that begins before the run is covered; an entry stands for 2^27, 2^18, 512 or 1 pages |
| PageSearch.WayEnd | arch/x86_64/mm/vm.c:211-253 | the way along the indices ends in a leaf table or at an entry that is no present upper one, and where |
| VirtualMemory.InitOpens | arch/x86_64/mm/vm.c:113-145 | vm_init clears the window's table and writes the last entries on the way to it that were absent, present, writable, for neither user code nor execution; no other entry of any table changes; the way is open afterwards if and only if one of the three was absent before, or it was open already |
| PageWay.WalkKept | arch/x86_64/mm/vm.c:113-145 | every page whose walk comes to none of the entries written walks as it did in the boot tables |
| PageWay.WayTree | arch/x86_64/mm/vm.c:113-145 | a tree held by the boot memory is held by the new one, with those absent entries leading out of it |
| PageWay.WayLookup | arch/x86_64/mm/vm.c:113-145 | of this tree the pages below the entries written are outside and had been unmapped; every other page is seen as before, and no rights change |
| VirtualMemory.PageTables.OpenWindow | arch/x86_64/mm/vm.c:120-145 | the loop of vm_init writes those entries and no other, whatever the boot tables hold |
| Boot.AfterInitView | arch/x86_64/mm/vm.c:113-145 | page by page: what the boot tables map is mapped after vm_init to the same frames with the same rights; only unmapped pages on the way to the window are taken from what may be mapped |
| Boot.StartEmpty | kernel.c:73-74 | from an empty root table the simplest valid state is reached, with every page below the root's last entry unmapped, every page above it outside the tree, and so no mapped frame that is not locked |
| VirtualMemory.WindowPages | arch/x86_64/mm/vm.c:84-88 | window slot k is the page whose four indices are 511, 511, 511 and k |
| VirtualMemory.WindowWalk | arch/x86_64/mm/vm.c:84-98 | while the way is open, the processor's walk of window page k ends at the frame in slot k, with the right to write if and only if the slot and the three upper entries have it, and barred to user code and execution where the slot bars them |
| VirtualMemory.PageTables.SlotWalk | arch/x86_64/mm/vm.c:84-98 | the walk of any slot in use ends at its frame, is barred to user code and execution, and may write if and only if the three upper entries allow it |
| VirtualMemory.PageTables.SlotWritable | arch/x86_64/mm/vm.c:84-98 | through any slot in use the kernel may write if and only if CR0.WP is clear or the three upper entries allow it |
| VirtualMemory.PageTables.EnteredWindow | arch/x86_64/mm/vm.c:603-606 | once the root's entry for the window has new rights, the writes that follow go through a window that carries them |
| VirtualMemory.PageTables.constructor | arch/x86_64/mm/vm.c:113-145 | vm_init changes only those entries of the boot tables, and leaves the window working, empty and with slot 0 as the next one, provided not all three entries were present |
| VirtualMemory.PageTables.FindFirstFreeTmp | arch/x86_64/mm/vm.c:139-142 | the cursor ends at the lowest free slot |
| VirtualMemory.PageTables.Adopt | arch/x86_64/mm/vm.c:113-145 | if the tables vm_init leaves hold a tree of locked frames, every later operation may start from here |
| VirtualMemory.PageTables.Resolve | arch/x86_64/mm/vm.c:84-111 | a pointer into the window leads to the frame last entered for its slot, through the cache or through a walk (rights do not bind the kernel while CR0.WP is clear) |
| VirtualMemory.PageTables.MapPageTmp | arch/x86_64/mm/vm.c:84-98 | hands out the lowest free slot other than the reserved one; its assertion never fails while a slot is free; every slot in use stays present, writable, for neither user code nor execution |
| VirtualMemory.PageTables.UnmapPageTmp | arch/x86_64/mm/vm.c:100-111 | gives the slot back, invalidates it, and leaves the cursor at the lowest free slot |
| VirtualMemory.PageTables.Store | arch/x86_64/mm/vm.c:75-82 | a write through a pointer, with CR0.WP clear, changes one entry of one table and keeps the way to the window open |
| VirtualMemory.PageTables.CreatePt | arch/x86_64/mm/vm.c:156-166 | the new table is the lowest frame that was free, is cleared, and is entered in place of an absent entry |
| VirtualMemory.PageTables.UpdatePtPteFlags | arch/x86_64/mm/vm.c:168-179 | only the rights of one upper entry change, and it never forbids execution |
| VirtualMemory.PageTables.FindSpace | arch/x86_64/mm/vm.c:198-272 | for any tables and flags not for user mappings: it ends, changes no table, restores the window, and every result that is no error is at least the number of pages; with known tables, room at the indices is found there and a strict search without it returns the overlap error with the indices unchanged |
| VirtualMemory.PageTables.CountFree | arch/x86_64/mm/vm.c:255-263 | counts the absent entries from one on, as far as needed |
| VirtualMemory.PageTables.SkipTaken | arch/x86_64/mm/vm.c:214-253 | decides the search or ends at an absent entry; in strict mode it never moves |
| VirtualMemory.PageTables.RecurseMap | arch/x86_64/mm/vm.c:274-317 | does to the tables what the function on trees says, keeps them a tree of locked frames, locks exactly the tables it adds, and restores the window on every exit |
| VirtualMemory.PageTables.MapBelow | arch/x86_64/mm/vm.c:298-313 | one turn above the last level: the child table, new if it was absent, is entered, its entry takes the requested rights, and it is left again with the tree grown by exactly the frames locked meanwhile |
| VirtualMemory.PageTables.MapLeaf | arch/x86_64/mm/vm.c:289-296 | one turn at the last level: an absent slot is filled, a present one skipped |
| VirtualMemory.PageTables.RecurseFlag | arch/x86_64/mm/vm.c:576-614 | does what the function on trees says, ends with the missing-mapping error exactly where it says a slot was missing, and restores the window on every exit, errors included |
| VirtualMemory.PageTables.RecurseSetBacking | arch/x86_64/mm/vm.c:531-553 | succeeds exactly if the page is mapped and changes its frame only; the window is restored |
| VirtualMemory.PageTables.RecurseFind | arch/x86_64/mm/vm.c:481-502 | finds the frame of a mapped page, reports an unmapped one, changes no table and restores the window |
| VirtualMemory.PageTables.RecurseUnmap | arch/x86_64/mm/vm.c:404-439 | clears what the function on trees says; from the cache exactly the pages invalidated disappear; the window is restored |
| VirtualMemory.PageTables.InvalidatePage | arch/x86_64/mm/vm.c:70-73 | drops one page from the cache and keeps the window in order |
| VirtualMemory.PageTables.LeaveChild | arch/x86_64/mm/vm.c:310-313 | unmapping the child from the window restores it exactly, and the parent table holds the grown tree |
| PageView.OffsetOf | arch/x86_64/mm/vm.c:36-46 | the four indices of a page name that page and no other |
| PageView.RunPages | arch/x86_64/mm/vm.c:319-364 | within one leaf table, the slots of a run are the pages from its first on |
| PageView.FreeFits | arch/x86_64/mm/vm.c:198-272 | a search at the first page of a range within one leaf table finds room if and only if the range is free |
| PageView.UnmapUndoesMap | arch/x86_64/mm/vm.c:404-460 | unmapping undoes the mapping of a free range, for every page's translation |
| Tlb.CachedWalk | arch/x86_64/mm/vm.c:70-73 | in a coherent state the processor's walk of a cached page ends at the cached frame |
| Tlb.MapCoherent | arch/x86_64/mm/vm.c:319-364 | mapping keeps every cached translation right without any invalidation, for any run |
| Tlb.UnmapCoherent | arch/x86_64/mm/vm.c:404-460 | the pages invalidated by an unmapping, for any run, are enough to leave no stale translation |
| Tlb.FlagCoherent | arch/x86_64/mm/vm.c:616-630 | re-flagging leaves no stale frame in the cache |
| Tlb.RunsCoherent | arch/x86_64/mm/vm.c:70-111 | in every state of every run of maps, unmaps, re-flaggings, backings of pages not cached otherwise, window steps and accesses, each cached translation is the one in the tree or in the window's table |
| Tlb.BackCoherent | arch/x86_64/mm/vm.c:555-569 | giving a page another frame keeps the cache coherent if and only if no older frame of the page is cached |
| KernelSpace.KernelPage | arch/x86_64/mm/vm.c:57-57 | kernel addresses are the upper half of the 36-bit page numbers |
| KernelSpace.RebuildSame | arch/x86_64/mm/vm.c:353-360 | putting an address together from its own indices, with the sign extended, gives the address back |
| KernelSpace.RebuildIs | arch/x86_64/mm/vm.c:353-360 | whatever the indices, the address put together has them as its own, keeps the offset of the hint, and has its upper 16 bits set if it lies in the upper half |
| KernelSpace.RoomyToMap | arch/x86_64/mm/vm.c:156-166 | three free frames and one to spare are enough for the tables of any mapping within one leaf table |
| KernelSpace.MappingStraight | arch/x86_64/mm/vm.c:319-364 | a straight run for which there is room: its pages were free, page k leads to frame k with the requested rights, every other page as before |
| KernelSpace.MappingStraightIff | arch/x86_64/mm/vm.c:319-364 | where there is room for a run that stays inside the tree: its pages are all mapped in their order, and no others, if and only if it is straight; it is so already if all are filled and no page outside the range is touched |
| KernelSpace.MappingOneTable | arch/x86_64/mm/vm.c:319-364 | within one leaf table every run is straight and there is room if and only if the range is free |
| KernelSpace.VmMapPages | arch/x86_64/mm/vm.c:319-364 | for any run that stays inside the tree: it succeeds if and only if the search finds room, and then the tables are what the walker makes of them, a tree again, each new table a frame that was free; otherwise it reports an overlap with tables, locked frames and hint unchanged; cached translations stay right |
| KernelSpace.VmkMapPages | arch/x86_64/mm/vm.c:382-391 | the same outcome, tried at the hint or, if it is zero, at the end of the kernel image, which is also the address returned; the alignment assertion stops the kernel if and only if that address is not page aligned |
| KernelSpace.VmkMapBytes | arch/x86_64/mm/vm.c:393-402 | the same for bytes, where any end of the image will do: whatever the outcome, the address returned is the start of the page of the hint, or of the image's end if the hint is zero, plus the offset of the physical address in its page |
| KernelSpace.VmMapBytes | arch/x86_64/mm/vm.c:366-380 | over a straight run, byte b of the mapped range leads to byte b of the physical one, for any alignment of its start |
| KernelSpace.SpannedHold | arch/x86_64/mm/vm.c:366-380 | the pages taken for a range of bytes hold all of it from its offset on, and one page less would not |
| KernelSpace.BytesRoundTrip | arch/x86_64/mm/vm.c:504-523 | translating byte b of a range mapped by vm_map_bytes gives byte b of the physical range |
| KernelSpace.VmkVaddrToPaddr | arch/x86_64/mm/vm.c:504-529 | the physical address of a mapped page with the offset kept, or the missing-mapping error |
| KernelSpace.Access | arch/x86_64/mm/vm.c:70-73 | an access through a coherent cache, filled on demand, yields what the tree says and keeps it coherent |
| KernelSpace.WalkOf | arch/x86_64/mm/vm.c:481-502 | in a valid state the processor's walk of a page inside the tree yields the frame and the rights the tree says |
| KernelSpace.VmkUnmapPages | arch/x86_64/mm/vm.c:441-473 | for any run that stays inside the tree: exactly which pages become untranslatable; exactly these leave the cache, which is coherent; the number returned is theirs plus a multiple of 512 for absent tables |
| KernelSpace.UnmappingOneTable | arch/x86_64/mm/vm.c:441-460 | a range within one leaf table: exactly its pages become untranslatable; at least as many are counted, and no more provided the table exists |
| KernelSpace.VmkFlagPages | arch/x86_64/mm/vm.c:616-637 | for any run that stays inside the tree: no translation changes, and the error appears if and only if one of the pages visited was unmapped |
| KernelSpace.VisitsRange | arch/x86_64/mm/vm.c:616-637 | for a straight run the pages visited are those of the range, so the error appears if and only if one of these is unmapped |
| KernelSpace.FlaggingRoot | arch/x86_64/mm/vm.c:600-606 | re-flagging below the root's last entry, which leads to the window as well, gives that entry the rights asked for |
| KernelSpace.FlaggingOneTable | arch/x86_64/mm/vm.c:616-637 | a range within one leaf table is re-flagged if and only if all of it is mapped |
| KernelSpace.VmkSetBacking | arch/x86_64/mm/vm.c:555-574 | the page alone gets the frame; the cache is coherent afterwards if and only if it held no other frame for the page |
| MemoryMap.NotShared | mm/mm.c:161-180 | while only locked frames are mapped, a frame from mm_map is shared with no other page, and that stays so |
| MemoryMap.BackPage | mm/mm.c:172-177 | the lowest free frame is locked and becomes the page's frame; the assertion stops the kernel if and only if the page is not mapped |
| MemoryMap.BackRange | mm/mm.c:172-177 | every page of the range, up to the first that is not mapped, gets a frame of its own that was free; no other page and no table changes; the assertion stops the kernel if and only if some page is not mapped |
| MemoryMap.MmMap | mm/mm.c:161-180 | for any region that stays inside the tree: NULL with nothing changed if and only if there is no room; otherwise the region is reserved and its pages get, one after the other, frames of their own that were free, are locked now and are no page tables; an assertion stops the kernel if and only if the address is not aligned or a page has not been mapped by then; the cache stays coherent if and only if it holds no other frame for these pages |
| MemoryMap.BackingView | mm/mm.c:172-177 | backing a range gives page k frame k with the rights it had, and touches no other page |
| MemoryMap.MmStraight | mm/mm.c:161-180 | a straight region: no assertion fails, and with room its pages were free and each has a fresh frame with exactly the requested rights, every other page as before; nothing stale is cached |
| MemoryMap.MmStraightIff | mm/mm.c:161-180 | with room, and if the reservation fills all its pages: mm_map does that if and only if the region is straight, and leaves every page outside the region alone if and only if it is |
| MemoryMap.MmReplaces | mm/mm.c:172-177 | a page of the region that was mapped before keeps its rights and loses its frame to a fresh one |
| MemoryMap.CrossingReplaces | mm/mm.c:161-180 | a strict request that does so: 512 pages from the second page of an absent leaf table on, the last of them mapped already, succeed |
| MemoryMap.SuchARegion | mm/mm.c:161-180 | tables that meet the conditions of that request, at the second page of the heap |
| MemoryMap.RegionOneTable | mm/mm.c:161-171 | within one leaf table there is room if and only if the region is free, and three frames more than pages are enough |
| Slab.SlabSizes | mm/mm.c:12-84 | the size computed for each class is the one its name promises |
| Slab.Slab.constructor | mm/mm.c:46-57 | a new slab is empty and begins at 0xffff800000000000 plus 2^36 times its class |
| Slab.Slab.PutFront | mm/mm.c:117-119 | the link in the chunk becomes the front of the ring |
| Slab.Slab.TakeFront | mm/mm.c:133-135 | the chunk returned is the one the head's next link lies in, and the ring goes on without it |
| Slab.Slab.Carve | mm/mm.c:116-122 | cuts chunks as long as they end below the limit, and how many: the new end is less than one chunk from the limit; each is accounted for exactly once, and they are in front of the free list, the last one first; the list stays one ring through the free chunks |
| Slab.Slab.Pop | mm/mm.c:133-135 | the first free chunk passes into use; the others stay linked in their order |
| Slab.AllocSlab | mm/mm.c:102-123 | the assertion that the page could be mapped never fails; the page gets a fresh frame of its own, to be written, for neither user code nor execution; all chunks that end below the end of that page are cut and put in front of the free list, the last one first; growth adds a chunk, and keeps PAGEALIGNUP(end) the end of the slab's memory and within its address space, if and only if chunks are smaller than a page |
| Slab.ChunkIs | mm/mm.c:116-122 | chunks lie at multiples of the class size from the start |
| Slab.ChunksDisjoint | mm/mm.c:116-122 | two different chunks have no byte in common |
| Slab.ChunkMapped | mm/mm.c:116-122 | every byte of a chunk is mapped to be written, for neither user code nor execution, even across page boundaries |
| Slab.MmAlloc | mm/mm.c:125-136 | hands out a chunk that is not in use and is mapped as a whole, to be written, for neither user code nor execution; free and used chunks stay, without repetition, the chunks there are, and the free ones linked in one ring; other slabs' translations stay; if the slab grew, by one fresh frame |
| Heap.Heap.constructor | mm/mm.c:46-57 | sixteen empty slabs in order, with lists that have no link in common |
| Heap.Heap.Alloc | mm/mm.c:125-136 | keeps the invariant over all slabs: each is in order, mapped frames are locked, no page of the heap shares its frame with any other page, and each free list is one ring apart from the others |
| Heap.Heap.Request | mm/mm.c:125-136 | mm_alloc of so many bytes: an assertion stops it if and only if these are at most 8 or at least 4096; otherwise a chunk that was not in use is handed out and the invariant over all slabs kept, and the chunk is large enough if and only if the request is of 9 to 48 bytes |
| SlabClass.LeastPower | mm/mm.c:59-69 | the bit operations give the least power of two that is not below the size, for every size up to 2^63 |
| SlabClass.ChosenIs | mm/mm.c:86-100 | which class is left once the one below has been considered, and that its chunks are large enough for sizes up to 48 only |
| SlabClass.GetSlabFromSize | mm/mm.c:86-100 | the loop finds that class; its assertion fails if and only if the size is at most 8 |
| Heap.FreeStops | mm/mm.c:138-155 | mm_free takes a chunk in use to be of class 0xf800 and more, so that its assertion on the class stops it for every one of them |
| Heap.Heap.ListsKept | mm/mm.c:116-135 | what one slab does to its own list leaves the other lists as they were |
| Heap.GrowthPrivate | mm/mm.c:110-114 | the page a slab grows by shares its frame with no other page |
| Heap.OtherReady | mm/mm.c:102-123 | the growth of one slab leaves the others in order |
| Heap.InUse | mm/mm.c:116-122 | a chunk in use lies at a multiple of its class size from the start of its slab, given as a number, ends before the next slab begins, and is mapped as a whole, to be written, for neither user code nor execution |
| Heap.InUseApart | mm/mm.c:125-136 | two different chunks in use, from whichever slabs, have no byte in common |
| Heap.InUsePhysicallyApart | mm/mm.c:125-136 | nor do they have one in physical memory |
| FrameSet.LeastFree | mm/pm.c:75-83 | the frame that is free while all lower ones are locked |
| PhysicalMemory.FrameAllocator.constructor | mm/pm.c:55-63 | nothing is locked and the cursor is at the lowest frame |
| PhysicalMemory.FrameAllocator.FindFirstFreeIndex | mm/pm.c:169-181 | moves the cursor to the least free index, or reports that there is none |
| PhysicalMemory.FrameAllocator.TrySetPage | mm/pm.c:183-195 | locks or releases one frame and tells whether that was a change |
| PhysicalMemory.FrameAllocator.TryLockPage | mm/pm.c:197-209 | true exactly if the frame was free; bitmap, counters and cursor again describe one set of locked frames; used plus free stays |
| PhysicalMemory.FrameAllocator.TryLockPages | mm/pm.c:211-224 | locks exactly the frames its bytes fill, counted in pages from the first byte's frame, the last page perhaps in part; from a frame boundary every byte of the range is in a locked frame; true exactly if all were free |
| PhysicalMemory.FramesAre | mm/pm.c:211-224 | frame f belongs to a range if and only if some byte of it is as many pages from its start as f is from the first frame; an empty range has that one frame |
| PhysicalMemory.CoveredIff | mm/pm.c:211-224 | from any start: every byte of the range is in a locked frame if and only if start offset and length together need no page more than the length alone |
| PhysicalMemory.PagesHold | include/mem/page.h:9-9 | a number of bytes fills the least number of pages that holds it |
| PhysicalMemory.FrameAllocator.TryReleasePage | mm/pm.c:226-241 | true exactly if the frame was locked; the cursor is again the least free index |
| PhysicalMemory.FrameAllocator.TryReleasePages | mm/pm.c:243-256 | releases exactly the frames its bytes fill; for a non-empty range the result is always true |
| PhysicalMemory.BooksDetermined | mm/pm.c:197-256 | packed bytes, count of clear bits, counters and cursor are functions of the locked frames and the total |
| PhysicalMemory.FrameAllocator.Restored | mm/pm.c:211-256 | so releasing a range that had been free before it was locked restores bytes, counters and cursor |
| PhysicalMemory.FrameAllocator.RequestPage | mm/pm.c:75-83 | returns and locks the lowest free frame; its assertion never fails |
| PhysicalMemory.FrameAllocator.FindRun | mm/pm.c:93-116 | finds a run of free frames that no run of that length precedes |
| PhysicalMemory.FrameAllocator.RequestPages | mm/pm.c:85-120 | returns and locks exactly the lowest run of that many consecutive free frames; its assertion never fails |
| PhysicalMemory.FrameAllocator.ComputeMemSize | mm/pm.c:41-53 | the locked frames are those of the reserved segments, so that every byte of a reserved segment that starts at a frame boundary within the bitmap is in a locked frame; used plus free is the total length of all segments |
| PhysicalMemory.FrameAllocator.Init | mm/pm.c:65-73 | reserved memory, the kernel image and the lowest frame left are locked, and no other frame; every byte of an image that starts at a frame boundary is in a locked frame, wherever it ends |
| Boot.LockedIff | mm/pm.c:65-73 | any frames, the boot tables' above all, are locked after pm_init if and only if each is covered by a reserved segment, lies in the image, or is the lowest one left |
| Boot.Start | kernel.c:73-74 | after pm_init and vm_init the boot tables are locked exactly then, and if so the state is valid and its tree is the one the boot memory held with the way to the window added; only locked frames are mapped if and only if every frame mapped at boot is safe in the same way |
| Boot.BackedIff | mm/pm.c:65-73 | after pm_init every mapped frame is locked if and only if each is covered by a reserved segment, lies in the image, or is the lowest one left |
| Boot.BringUp | kernel.c:73-76 | pm_init, vm_init, mm_init and kernel_remap in this order: if all frames of boot tables and all frames these map are safe, and the heap's pages are free, all of it goes through; the heap's invariant and the rights of the image hold together, and every page mapped at boot keeps its frame |
| Boot.SoundKept | kernel.c:75-76 | the heap's invariant survives kernel_remap |
| Boot.FirstRequest | mm/pm.c:65-83 | with reserved memory and image filling the frames below n, the first request returns frame n + 1, which is not safe, whatever table or mapped page lies there |
| Boot.SuchAMap | mm/pm.c:41-73 | memory maps for which that happens |
| PhysicalMemory.FrameAllocator.RoomyAffords | mm/pm.c:75-83 | so many free frames and one more are enough for so many requests |
| Bitmap.BitsWritten | structs/bitmap.c:27-46 | writing one bit of one packed byte changes the set of bits by that index alone |
| Bitmap.BytesDetermined | structs/bitmap.c:27-46 | the set of bits determines the packed bytes |
| Bitmap.Bitmap.From | structs/bitmap.c:4-15 | the bytes are cleared and all bits count as unset |
| Bitmap.Bitmap.Get | structs/bitmap.c:16-25 | the bit, or an error beyond the size |
| Bitmap.Bitmap.Set | structs/bitmap.c:27-46 | sets or clears one bit, tells a change from a repetition, and keeps the count of clear bits right |
| List.EmptyIff | include/structs/list.h:25-25 | the test for emptiness holds exactly of the list without elements |
| List.FrontIs | mm/mm.c:133-133 | the link after the head is the first element |
| List.Init | structs/list.c:4-9 | an empty ring |
| List.Insert | structs/list.c:11-19 | the element becomes the front of the list, whose links still form one ring |
| List.Remove | structs/list.c:21-28 | one element leaves, wherever it is; the others keep their order |
| List.Length | structs/list.c:30-38 | ends after one round with the number of elements |
| List.Join | structs/list.c:40-50 | the other list's elements in their order, followed by the original ones; an empty one changes nothing |
| KernelRemap.FlagSection | include/mm/vm.h:71-72 | within one leaf table it succeeds if and only if all pages of the section are mapped, and then re-flags these alone |
| KernelRemap.LastCallLimits | kernel.c:31-59 | of two re-flaggings in one leaf table, pages of the first can be written afterwards if and only if both calls ask for it: the order of the calls matters |
| KernelRemap.Remapped | kernel.c:31-59 | the four changes in their order give every section its rights and change no frame |
| KernelRemap.NoWriteAndExecute | kernel.c:31-59 | no page of a section can be both written and executed |
| KernelRemap.BytesProtected | kernel.c:31-59 | byte by byte, from the linker's addresses: entry and data can be written and not executed, text can be executed and not written, rodata neither, and user code has access to none |
| KernelRemap.CleanIff | kernel.c:31-59 | no page of the image can be both written and executed afterwards, if and only if no entry between the sections allowed both before |
| KernelRemap.OnlySections | kernel.c:31-59 | every page outside the four sections keeps its entry |
| KernelRemap.NoGaps | arch/x86_64/boot/multiboot2/link.ld:26-46 | sections aligned as the linker script does leave no page between them |
| KernelRemap.RootRetagged | kernel.c:31-59 | each call gives the root's entry for image and window the right to write exactly if it asks for it |
| KernelRemap.NextWrite | kernel.c:42-50 | the write that follows, in the second and third call, goes through a slot in use of a window without the right to write: it is allowed if and only if CR0.WP is clear |
| KernelRemap.ProtectCode | kernel.c:35-47 | after the first call the root lets image and window be written, after the second it does not |
| KernelRemap.ProtectData | kernel.c:49-58 | after the third call it still does not, after the fourth it does |
| KernelRemap.KernelRemap | kernel.c:31-59 | with CR0.WP clear the assertions never fail; the walk of every byte of entry and data then grants RW-, of text R-X and of rodata R--; no page changes its frame and none outside the sections its entry; the image has no page for both writing and executing exactly if none lay between the sections |
| Initfs.StrEqual | mem/str.c:22-35 | true exactly if the terminated string at the position is the other one; an assertion stops it if and only if both are empty |
| Initfs.OctStrToNum | common/initfs.c:38-47 | the value of all characters but the last of the field, modulo 2^64 |
| Initfs.OctalRoundTrip | common/initfs.c:38-47 | writing a number with so many octal digits and reading it back is the identity on all numbers that fit |
| Initfs.SizeRead | common/initfs.c:85-85 | the size field of an entry is read as the length of its contents, without wrapping |
| Initfs.HeaderFields | common/initfs.c:18-36 | the name, size, type, magic and version fields begin where the widths of the fields before them put them, and the header has 512 bytes |
| Initfs.EntryBlocks | common/initfs.c:92-92 | an entry takes whole blocks of 512 bytes, and no more than header and contents need |
| Initfs.NameIs | common/initfs.c:86-86 | the name comparison holds exactly for the name of the entry |
| Initfs.LookingOn | common/initfs.c:92-92 | the next header address is where the next entry begins |
| Initfs.Encoded | common/initfs.c:18-36 | files written out in this layout make an archive that the lookup accepts, entry by entry |
| Initfs.InitfsLookup | common/initfs.c:69-95 | on any archive at a block boundary and for any name it ends and finds the exact start and size of the contents of the first file with the name, or reports that there is none; an assertion stops it if and only if the name has 100 characters or more, or there is such a file and it is not of type 1 or its name is empty |
| Initfs.NoWrap | common/initfs.c:92-92 | no address computed on the way wraps around |

## Left out

- KernelSpace.VmMapPages: non-strict requests that do not find room at once (see FindSpace), runs that step into a `Foreign` entry, and tables other than the kernel's own.
- KernelSpace.VmkMapPages: the same.
- KernelSpace.VmMapBytes: the same; the translation byte by byte is stated for straight runs, as exactly these are mapped in the order of their pages (KernelSpace.MappingStraightIff).
- KernelSpace.VmkMapBytes: the same.
- MemoryMap.MmMap: regions that go past the last page, or of which the reservation or the backing steps out of the tree; requests that are not strict and do not find room at once; and `mm_map_in_table`, which does the same on tables of other processes.
- VirtualMemory.PageTables.FindSpace: what a non-strict search finds after skipping an occupied slot, where the original advances its counter twice and the index once; only its end and the size of its result are stated. Flags for user mappings, which "match" mappings of other frames, are excluded: with a match of another frame the original makes no progress.
- VirtualMemory.PageTables.CountFree: flags for user mappings, for the same reason.
- VirtualMemory.PageTables.SkipTaken: flags for user mappings, for the same reason.
- VirtualMemory.PageTables.Adopt: that the tables are locked and hold a tree is asked of the caller, as described above.
- VirtualMemory.PageTables.Store: rights, as long as CR0.WP is clear, as described above.
- VirtualMemory.PageTables.Resolve: the same.
- KernelSpace.FlaggingOneTable: the effective rights of pages in other leaf tables below the same upper entries, which every call overwrites.
- PageRuns.MapOneLeaf: the effective rights of neighbours of the mapped pages, for the same reason.
- KernelSpace.VmkFlagPages: cached rights; the cache holds frames only, as the original issues no invalidation here.
- KernelSpace.Access: large pages and the processor's caches of upper-level entries.
- PhysicalMemory.FrameAllocator.TrySetPage: frames beyond the first bitmap. A second bitmap gets index 0 in the original, and creating it calls back into the slab allocator. The bitmap's size is a parameter.
- PhysicalMemory.FrameAllocator.TryLockPage: the same, and the lock of the last free frame, after which the original looks for a next bitmap through the bare head of its list.
- PhysicalMemory.FrameAllocator.TryLockPages: the same.
- PhysicalMemory.FrameAllocator.ComputeMemSize: reserved segments that begin in the first bitmap and end beyond it, and those that fill it, for the same reasons.
- PhysicalMemory.FrameAllocator.Init: the same.
- PhysicalMemory.FrameAllocator.RequestPage: the same, and the case of no free frame, where the original stops for lack of swapping.
- PhysicalMemory.FrameAllocator.RequestPages: the same.
- PhysicalMemory.FrameAllocator.TryReleasePage: frames beyond the first bitmap.
- PhysicalMemory.FrameAllocator.TryReleasePages: the same, and whether the released frames had been locked; the original reports success for every non-empty range.
- Slab.MmAlloc: the class of 4096 bytes, for which growth adds no chunk (Slab.AllocSlab).
- Heap.FreeStops: what `mm_free` would do after the assertion that stops it.
- Initfs.InitfsLookup: trailing zero blocks, which the original's assertions reject; and owner, mode, time and checksum fields, which it never reads. `initfs_from_module` and `initfs_release` only call functions modelled here.
- The indices a walker advances in place are passed and returned as values, as no other alias of them exists.
- `mem_set` and `mem_copy` are taken as exact fill and copy.
- Boot code, multiboot parsing, interrupts, timers, serial output, logging and ACPI: hardware access.
