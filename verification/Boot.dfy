/**
 * The start of the memory core (`pm_init`, `vm_init`, `mm_init` and `kernel_remap` in kernel.c), and what has to be true
 * of the boot tables for it: `pm_init` locks reserved memory and the kernel image, and the tables lie behind the image.
 */
module Boot {
  import opened Machine
  import opened FrameSet
  import opened Paging
  import opened PageTree
  import opened PageView
  import opened PageWay
  import opened PhysicalMemory
  import opened Tlb
  import opened VirtualMemory
  import opened KernelSpace
  import opened KernelRemap
  import opened Slab
  import opened Heap

  /** Reserved memory and the kernel image. */
  ghost function Taken(segments: seq<Segment>, size: nat, kernelStart: nat, kernelEnd: nat): set<nat>
    requires kernelStart <= kernelEnd
  {
    Reserved(segments, size) + FramesOf(kernelStart, kernelEnd - kernelStart)
  }

  /** Once `pm_init` is done, these frames are locked, and the lowest one left, set aside for the next bitmap. */
  ghost function InitLocks(segments: seq<Segment>, size: nat, kernelStart: nat, kernelEnd: nat): set<nat>
    requires kernelStart <= kernelEnd
  {
    var taken := Taken(segments, size, kernelStart, kernelEnd);
    taken + {LeastFree(taken)}
  }

  /** A frame is reserved if a reserved segment that starts within the bitmap covers it. */
  lemma {:induction false} ReservedIs(segments: seq<Segment>, size: nat, f: nat)
    ensures f in Reserved(segments, size) <==>
              exists i :: 0 <= i < |segments| && segments[i].reserved && segments[i].addr / PAGE_SIZE < size &&
                          f in FramesOf(segments[i].addr, segments[i].length)
    decreases |segments|
  {
    hide FramesOf;
    if segments != [] {
      var n := |segments| - 1;
      var init := segments[..n];
      ReservedIs(init, size, f);
      assert forall i | 0 <= i < n :: init[i] == segments[i];
      if f in Reserved(init, size) {
        var i :| 0 <= i < n && init[i].reserved && init[i].addr / PAGE_SIZE < size && f in FramesOf(init[i].addr, init[i].length);
        assert segments[i] == init[i];
      }
      if i :| 0 <= i < |segments| && segments[i].reserved && segments[i].addr / PAGE_SIZE < size && f in FramesOf(segments[i].addr, segments[i].length) {
        assert i < n ==> init[i] == segments[i];
      }
    }
  }

  /** One frame is safe from being handed out. */
  ghost predicate Safe(f: nat, segments: seq<Segment>, size: nat, kernelStart: nat, kernelEnd: nat)
    requires kernelStart <= kernelEnd
  {
    || (exists i :: 0 <= i < |segments| && segments[i].reserved && segments[i].addr / PAGE_SIZE < size &&
                    f in FramesOf(segments[i].addr, segments[i].length))
    || f in FramesOf(kernelStart, kernelEnd - kernelStart)
    || f == LeastFree(Taken(segments, size, kernelStart, kernelEnd))
  }

  /** The boot tables are locked if and only if each of their frames is reserved, in the image, or the lowest one left. */
  lemma LockedIff(needed: set<nat>, segments: seq<Segment>, size: nat, kernelStart: nat, kernelEnd: nat)
    requires kernelStart <= kernelEnd
    ensures needed <= InitLocks(segments, size, kernelStart, kernelEnd) <==>
              forall f | f in needed :: Safe(f, segments, size, kernelStart, kernelEnd)
  {
    hide Reserved, FramesOf;
    forall f: nat
      ensures f in InitLocks(segments, size, kernelStart, kernelEnd) <==> Safe(f, segments, size, kernelStart, kernelEnd)
    {
      ReservedIs(segments, size, f);
    }
  }

  /** The frames that are mapped. */
  ghost function MappedFrames(tree: seq<Node>): set<nat> {
    set v: nat | v < PAGE_LIMIT && View(tree, v).Mapped? :: View(tree, v).entry.frame
  }

  /** Every mapped frame is safe from being handed out. */
  ghost predicate MappedSafe(tree: seq<Node>, segments: seq<Segment>, size: nat, kernelStart: nat, kernelEnd: nat)
    requires kernelStart <= kernelEnd
  {
    forall v: nat | v < PAGE_LIMIT && View(tree, v).Mapped? :: Safe(View(tree, v).entry.frame, segments, size, kernelStart, kernelEnd)
  }

  /** Once `pm_init` is done, only locked frames are mapped if and only if every mapped frame is safe. */
  lemma BackedIff(tree: seq<Node>, segments: seq<Segment>, size: nat, kernelStart: nat, kernelEnd: nat)
    requires kernelStart <= kernelEnd
    ensures AllBacked(tree, InitLocks(segments, size, kernelStart, kernelEnd)) <==>
              MappedSafe(tree, segments, size, kernelStart, kernelEnd)
  {
    hide View, Safe, InitLocks;
    LockedIff(MappedFrames(tree), segments, size, kernelStart, kernelEnd);
    forall v: nat | v < PAGE_LIMIT && View(tree, v).Mapped?
      ensures View(tree, v).entry.frame in MappedFrames(tree)
    {
    }
  }

  /** The tables the way to the window leads through. */
  ghost function WaySpine(boot: Memory, root: nat, tmp: nat): set<nat> {
    {root, SpineAfter(boot, root, tmp).0, SpineAfter(boot, root, tmp).1}
  }

  /** What the boot code has to leave behind: tables that hold a tree, and an entry absent on the way to the window. */
  ghost predicate HoldsTree(boot: Memory, root: nat, tmp: Frame, kids: seq<Node>) {
    && root != tmp && !AllThreePresent(boot, root, tmp) && tmp !in Tables(kids)
    && Tree(boot, WaySpine(boot, root, tmp), root, kids, 0)
  }

  /** The frames of the boot tables and of the window's own table. */
  ghost function TableFrames(boot: Memory, root: nat, tmp: nat, kids: seq<Node>): set<nat> {
    Tables(kids) + WaySpine(boot, root, tmp) + {tmp}
  }

  /** The boot tables' tree with the entries `vm_init` adds. */
  ghost function AfterInit(boot: Memory, root: nat, tmp: Frame, kids: seq<Node>): seq<Node> {
    WithWay(root, kids, WaySpine(boot, root, tmp), tmp)
  }

  /** A page lies below one of the entries `vm_init` adds. */
  ghost predicate OnWayToWindow(boot: Memory, root: nat, tmp: nat, kids: seq<Node>, page: nat) {
    OnWay(root, kids, WaySpine(boot, root, tmp), PathOf(page))
  }

  /** What `vm_init` changes for the pages: those on the way to the window, unmapped before, are no longer for mapping; all others stay. */
  lemma AfterInitView(boot: Memory, root: nat, tmp: Frame, kids: seq<Node>, page: nat)
    ensures View(AfterInit(boot, root, tmp, kids), page) == if OnWayToWindow(boot, root, tmp, kids, page) then Outside else View(kids, page)
    ensures OnWayToWindow(boot, root, tmp, kids, page) ==> View(kids, page) == Unmapped
    ensures Rights(AfterInit(boot, root, tmp, kids), page) == Rights(kids, page)
  {
    hide PathOf;
    WayLookup(root, kids, WaySpine(boot, root, tmp), tmp, PathOf(page));
  }

  /** So the same pages are mapped, to the same frames. */
  lemma SameMapped(boot: Memory, root: nat, tmp: Frame, kids: seq<Node>)
    ensures forall v: nat | v < PAGE_LIMIT ::
              (View(AfterInit(boot, root, tmp, kids), v).Mapped? || View(kids, v).Mapped?) ==>
              View(AfterInit(boot, root, tmp, kids), v) == View(kids, v)
  {
    hide View, AfterInit, OnWayToWindow;
    forall v: nat | v < PAGE_LIMIT
      ensures (View(AfterInit(boot, root, tmp, kids), v).Mapped? || View(kids, v).Mapped?) ==>
                View(AfterInit(boot, root, tmp, kids), v) == View(kids, v)
    {
      AfterInitView(boot, root, tmp, kids, v);
    }
  }

  /**
   * `pm_init` and `vm_init`: the tables are locked exactly if all their frames are safe, and then every later
   * operation may start from here.
   */
  method Start(pm: FrameAllocator, segments: seq<Segment>, kernelStart: nat, kernelEnd: nat, boot: Memory, root: nat, tmp: Frame,
               ghost kids: seq<Node>) returns (vm: PageTables)
    requires pm.Valid() && pm.locked == {} && kernelStart <= kernelEnd && HoldsTree(boot, root, tmp, kids)
    requires var taken := Taken(segments, pm.Size(), kernelStart, kernelEnd);
             && taken <= Below(pm.Size()) && pm.Spare(taken) && pm.Spare(taken + {LeastFree(taken)})
             && PAGE_SIZE * |taken| + PAGE_SIZE <= TotalBytes(segments) < WORD
    modifies pm, pm.bitmap`unset, pm.bitmap.bytes
    ensures fresh(vm) && vm.pm == pm && pm.Valid() && pm.locked == InitLocks(segments, pm.Size(), kernelStart, kernelEnd)
    ensures WayAdded(boot, vm.Ram(), WaySpine(boot, root, tmp), tmp)
    ensures TableFrames(boot, root, tmp, kids) <= pm.locked <==>
              forall f | f in TableFrames(boot, root, tmp, kids) :: Safe(f, segments, pm.Size(), kernelStart, kernelEnd)
    ensures AllBacked(AfterInit(boot, root, tmp, kids), pm.locked) <==> MappedSafe(kids, segments, pm.Size(), kernelStart, kernelEnd)
    ensures TableFrames(boot, root, tmp, kids) <= pm.locked ==>
              vm.Valid() && vm.tree == AfterInit(boot, root, tmp, kids) && Coherent(vm.tree, vm.tlb)
  {
    BackedIff(kids, segments, pm.Size(), kernelStart, kernelEnd);
    SameBacked(boot, root, tmp, kids, InitLocks(segments, pm.Size(), kernelStart, kernelEnd));
    hide AllBacked, MappedSafe, AfterInit, WaySpine, WayAdded;
    LockedIff(TableFrames(boot, root, tmp, kids), segments, pm.Size(), kernelStart, kernelEnd);
    hide Safe, Reserved, FramesOf, TotalBytes, FrameAllocator.Valid, FrameAllocator.Spare, Tables, Tree;
    hide CoversAligned;
    var next := pm.Init(segments, kernelStart, kernelEnd);
    vm := InitTables(pm, boot, root, tmp, kids);
  }

  lemma SameBacked(boot: Memory, root: nat, tmp: Frame, kids: seq<Node>, locked: set<nat>)
    ensures AllBacked(AfterInit(boot, root, tmp, kids), locked) <==> AllBacked(kids, locked)
  {
    SameMapped(boot, root, tmp, kids);
    hide View, AfterInit;
  }

  /** `vm_init` on boot tables that hold a tree. */
  method InitTables(pm: FrameAllocator, boot: Memory, root: nat, tmp: Frame, ghost kids: seq<Node>) returns (vm: PageTables)
    requires pm.Valid() && HoldsTree(boot, root, tmp, kids)
    ensures fresh(vm) && vm.pm == pm && pm.Valid() && WayAdded(boot, vm.Ram(), WaySpine(boot, root, tmp), tmp)
    ensures TableFrames(boot, root, tmp, kids) <= pm.locked ==>
              vm.Valid() && vm.tree == AfterInit(boot, root, tmp, kids) && Coherent(vm.tree, vm.tlb)
  {
    hide InitSteps, Tables, Tree, WayAdded;
    vm := new PageTables(boot, root, tmp, pm);
    assert vm.Spine() == WaySpine(boot, root, tmp);
    if TableFrames(boot, root, tmp, kids) <= pm.locked {
      WayTree(boot, vm.Ram(), vm.Spine(), tmp, root, kids, 0);
      ghost var kids' := AfterInit(boot, root, tmp, kids);
      TreeFrame(vm.Ram(), vm.mem, vm.Spine(), root, kids', 0);
      hide Coherent, AfterInit, PageTables.WindowOk;
      vm.Adopt(kids');
    }
  }

  /** The simplest start: with an empty root table among the locked frames, `vm_init` leads to a valid state. */
  method StartEmpty(boot: Memory, root: nat, tmp: Frame, pm: FrameAllocator) returns (vm: PageTables)
    requires root != tmp && root < FRAME_LIMIT && pm.Valid() && {root, tmp} <= pm.locked
    requires Fetch(boot, root) == BlankTable()
    ensures vm.pm == pm && vm.Valid() && Coherent(vm.tree, vm.tlb) && fresh(vm)
    ensures forall page: nat | page < PAGE_LIMIT :: View(vm.tree, page) == if page < PAGE_LIMIT - 0x800_0000 then Unmapped else Outside
    ensures AllBacked(vm.tree, pm.locked)
  {
    EmptyHolds(boot, root, tmp);
    EmptyView(boot, root, tmp);
    hide View, HoldsTree, TableFrames, WayAdded, Coherent, AfterInit, PageTables.Valid;
    vm := InitTables(pm, boot, root, tmp, NoKids());
  }

  lemma EmptyHolds(boot: Memory, root: nat, tmp: Frame)
    requires root != tmp && Fetch(boot, root) == BlankTable()
    ensures HoldsTree(boot, root, tmp, NoKids()) && TableFrames(boot, root, tmp, NoKids()) == {root, tmp}
    ensures WaySpine(boot, root, tmp) == {root, tmp}
  {
    assert forall i | 0 <= i < PT_LENGTH :: TablesOf(NoKids()[i]) == {};
  }

  lemma EmptyView(boot: Memory, root: nat, tmp: Frame)
    requires root != tmp && Fetch(boot, root) == BlankTable()
    ensures forall page: nat | page < PAGE_LIMIT ::
              View(AfterInit(boot, root, tmp, NoKids()), page) == if page < PAGE_LIMIT - 0x800_0000 then Unmapped else Outside
  {
    EmptyHolds(boot, root, tmp);
    forall page: nat | page < PAGE_LIMIT
      ensures View(AfterInit(boot, root, tmp, NoKids()), page) == if page < PAGE_LIMIT - 0x800_0000 then Unmapped else Outside
    {
      AfterInitView(boot, root, tmp, NoKids(), page);
      Digits(page);
      var p := PathOf(page);
      assert p.index == 511 <==> page >= PAGE_LIMIT - 0x800_0000;
      assert Lookup(NoKids(), p) == LookupIn(NoKids()[p.index], p.rest);
    }
  }

  // ---- The heap over it ----------------------------------------------------------------------

  /** What changes rights in the image alone leaves the heap as it was. */
  lemma SoundKept(slabs: seq<Slab>, tree: seq<Node>, tree': seq<Node>, locked: set<nat>, l: Layout)
    requires Sound(slabs, tree, locked) && WellLaid(l) && HIGHER_HALF <= l.start
    requires KeepsFrames(tree, tree') && SectionsOnly(tree, tree', l)
    ensures Sound(slabs, tree', locked)
  {
    hide View, SlabSize, WellLaid, PageOf, InSections;
    forall v: nat | v < PAGE_LIMIT && v < SlabPage(SLAB_MAX)
      ensures View(tree', v) == View(tree, v)
    {
      BelowImage(l, v);
    }
    forall i | 0 <= i < SLAB_MAX
      ensures slabs[i].kind == i && Ready(slabs[i], tree')
    {
      StillReady(slabs[i], tree, tree');
    }
  }

  lemma StillReady(s: Slab, tree: seq<Node>, tree': seq<Node>)
    requires Ready(s, tree) && forall v: nat | v < PAGE_LIMIT && v < SlabPage(SLAB_MAX) :: View(tree', v) == View(tree, v)
    ensures Ready(s, tree')
  {
    hide View, SlabSize;
    assert SlabPage(s.kind) + SLAB_PAGES <= SlabPage(SLAB_MAX) <= PAGE_LIMIT;
  }

  /** The heap lies below the image. */
  lemma BelowImage(l: Layout, v: nat)
    requires WellLaid(l) && HIGHER_HALF <= l.start && v < SlabPage(SLAB_MAX)
    ensures !InSections(v, l)
  {
    SectionPages(l, l.start, l.textStart);
    SectionPages(l, l.textStart, l.textEnd);
    SectionPages(l, l.rodataStart, l.rodataEnd);
    SectionPages(l, l.dataStart, l.dataEnd);
    KernelPage(l.start);
    assert (l.start - KERNEL_START) / PAGE_SIZE >= (HIGHER_HALF - KERNEL_START) / PAGE_SIZE;
    assert SlabPage(SLAB_MAX) <= PageOf(l.start);
    hide PageOf, WellLaid, OneTable, PageCount;
  }

  /**
   * The order of kernel.c: physical memory, tables, heap, and the protection of the image. If every table frame and every
   * mapped frame is safe, all of it goes through, and the heap's invariant holds from there on.
   */
  method BringUp(pm: FrameAllocator, segments: seq<Segment>, kernelStart: nat, kernelEnd: nat, boot: Memory, root: nat, tmp: Frame,
                 l: Layout, ghost kids: seq<Node>) returns (vm: PageTables, heap: Heap)
    requires pm.Valid() && pm.locked == {} && kernelStart <= kernelEnd && HoldsTree(boot, root, tmp, kids)
    requires var taken := Taken(segments, pm.Size(), kernelStart, kernelEnd);
             && taken <= Below(pm.Size()) && pm.Spare(taken) && pm.Spare(taken + {LeastFree(taken)})
             && PAGE_SIZE * |taken| + PAGE_SIZE <= TotalBytes(segments) < WORD
    requires forall f | f in TableFrames(boot, root, tmp, kids) :: Safe(f, segments, pm.Size(), kernelStart, kernelEnd)
    requires MappedSafe(kids, segments, pm.Size(), kernelStart, kernelEnd)
    requires HeapFree(boot, root, tmp, kids)
    requires WellLaid(l) && HIGHER_HALF <= l.start && RangeMapped(kids, PageOf(l.start), PageCount(l.dataEnd - l.start))
    modifies pm, pm.bitmap`unset, pm.bitmap.bytes
    ensures fresh(vm) && vm.pm == pm && vm.Valid() && Coherent(vm.tree, vm.tlb)
    ensures Sound(heap.slabs, vm.tree, pm.locked) && LinksApart(heap.slabs)
    ensures fresh(heap) && forall i | 0 <= i < SLAB_MAX ::
              heap.slabs[i].Linked() && heap.slabs[i].handed == {} && fresh(heap.slabs[i]) && fresh(heap.slabs[i].Nodes())
    ensures Protected(vm.tree, l) && KeepsFrames(kids, vm.tree) && (Clean(vm.tree, l) <==> GapsClean(kids, l))
  {
    ghost var kids' := AfterInit(boot, root, tmp, kids);
    ReadyForHeap(boot, root, tmp, l, kids, kids');
    hide *;
    vm := Start(pm, segments, kernelStart, kernelEnd, boot, root, tmp, kids);
    heap := OverTables(vm, pm, l, kids');
    FramesTrans(kids, kids', vm.tree);
  }

  /** `mm_init` and `kernel_remap`. */
  method OverTables(vm: PageTables, pm: FrameAllocator, l: Layout, ghost kids: seq<Node>) returns (heap: Heap)
    requires vm.pm == pm && vm.Valid() && vm.tree == kids && Coherent(vm.tree, vm.tlb)
    requires AllBacked(kids, pm.locked) && HeapUnmapped(kids)
    requires WellLaid(l) && HIGHER_HALF <= l.start && RangeMapped(kids, PageOf(l.start), PageCount(l.dataEnd - l.start))
    modifies vm
    ensures vm.Valid() && Coherent(vm.tree, vm.tlb)
    ensures Sound(heap.slabs, vm.tree, pm.locked) && LinksApart(heap.slabs)
    ensures fresh(heap) && forall i | 0 <= i < SLAB_MAX ::
              heap.slabs[i].Linked() && heap.slabs[i].handed == {} && fresh(heap.slabs[i]) && fresh(heap.slabs[i].Nodes())
    ensures Protected(vm.tree, l) && KeepsFrames(kids, vm.tree) && (Clean(vm.tree, l) <==> GapsClean(kids, l))
  {
    hide *;
    label Tabled:
    heap := new Heap(kids, pm.locked);
    StillValid@Tabled(vm);
    KernelRemap.KernelRemap(vm, l);
    SoundKept(heap.slabs, kids, vm.tree, pm.locked, l);
  }

  /** No page of the heap is mapped by the boot tables or lies on the way to the window. */
  ghost predicate HeapFree(boot: Memory, root: nat, tmp: Frame, kids: seq<Node>) {
    forall v: nat | InHeap(v) :: View(kids, v) == Unmapped && !OnWayToWindow(boot, root, tmp, kids, v)
  }

  /** What `vm_init` leaves to the heap and to `kernel_remap`. */
  lemma ReadyForHeap(boot: Memory, root: nat, tmp: Frame, l: Layout, kids: seq<Node>, kids': seq<Node>)
    requires kids' == AfterInit(boot, root, tmp, kids) && WellLaid(l)
    requires HeapFree(boot, root, tmp, kids)
    requires RangeMapped(kids, PageOf(l.start), PageCount(l.dataEnd - l.start))
    ensures HeapUnmapped(kids')
    ensures RangeMapped(kids', PageOf(l.start), PageCount(l.dataEnd - l.start))
    ensures KeepsFrames(kids, kids') && (GapsClean(kids', l) <==> GapsClean(kids, l))
  {
    SameMapped(boot, root, tmp, kids);
    TableEnds(PageOf(l.start), PageCount(l.dataEnd - l.start));
    hide View, AfterInit, OnWayToWindow, PageOf, WellLaid, OneTable, PageCount, InGap;
    forall v: nat | InHeap(v)
      ensures View(kids', v) == Unmapped
    {
      AfterInitView(boot, root, tmp, kids, v);
    }
  }

  // ---- A table that is not locked -------------------------------------------------------------

  /** If the frames below `n` are taken and no others, the lowest one left is `n`. */
  lemma NextAfter(taken: set<nat>, n: nat)
    requires taken == Below(n)
    ensures LeastFree(taken) == n && LeastFree(taken + {n}) == n + 1
  {
    hide Below, LeastFree;
    assert IsLeastFree(taken, n) && IsLeastFree(taken + {n}, n + 1);
    hide IsLeastFree;
    LeastFreeUnique(taken, LeastFree(taken), n);
    LeastFreeUnique(taken + {n}, LeastFree(taken + {n}), n + 1);
  }

  /**
   * With reserved memory and the image filling the frames below `n`, frame `n` is set aside and the first request
   * returns frame `n + 1`, whatever is stored there: the second of the boot tables, if they follow the image at once.
   */
  method FirstRequest(pm: FrameAllocator, segments: seq<Segment>, kernelStart: nat, kernelEnd: nat, n: nat) returns (paddr: nat)
    requires pm.Valid() && pm.locked == {} && kernelStart <= kernelEnd && n + 2 < pm.Size()
    requires Taken(segments, pm.Size(), kernelStart, kernelEnd) == Below(n) && PAGE_SIZE * n + 2 * PAGE_SIZE <= TotalBytes(segments) < WORD
    modifies pm, pm.bitmap`unset, pm.bitmap.bytes
    ensures pm.Valid() && paddr == PAGE_SIZE * (n + 1)
    ensures !Safe(n + 1, segments, pm.Size(), kernelStart, kernelEnd)
  {
    var free := Below(n);
    hide Below, Reserved, FramesOf, TotalBytes, LeastFree, IsLeastFree;
    NextAfter(free, n);
    LockedIff({n + 1}, segments, pm.Size(), kernelStart, kernelEnd);
    assert {n + 1} <= free + {n} <==> n + 1 in free + {n};
    hide Safe;
    SpareAt(pm, free, n);
    SpareAt(pm, free + {n}, n + 1);
    paddr := InitAndRequest(pm, segments, kernelStart, kernelEnd, n);
  }

  lemma SpareAt(pm: FrameAllocator, taken: set<nat>, f: nat)
    requires f < pm.Size() && f !in taken && f !in pm.locked
    ensures pm.Spare(taken)
  {
  }

  method InitAndRequest(pm: FrameAllocator, segments: seq<Segment>, kernelStart: nat, kernelEnd: nat, n: nat) returns (paddr: nat)
    requires pm.Valid() && pm.locked == {} && kernelStart <= kernelEnd && n + 2 < pm.Size()
    requires Taken(segments, pm.Size(), kernelStart, kernelEnd) == Below(n) && PAGE_SIZE * n + 2 * PAGE_SIZE <= TotalBytes(segments) < WORD
    requires pm.Spare(Below(n)) && pm.Spare(Below(n) + {n}) && LeastFree(Below(n)) == n && LeastFree(Below(n) + {n}) == n + 1
    modifies pm, pm.bitmap`unset, pm.bitmap.bytes
    ensures pm.Valid() && paddr == PAGE_SIZE * (n + 1)
  {
    MayInit(segments, pm.Size(), kernelStart, kernelEnd, n);
    ghost var total := TotalBytes(segments);
    hide *;
    var next := pm.Init(segments, kernelStart, kernelEnd);
    MayRequest(pm, total, n);
    paddr := pm.RequestPage();
  }

  lemma MayInit(segments: seq<Segment>, size: nat, kernelStart: nat, kernelEnd: nat, n: nat)
    requires kernelStart <= kernelEnd && n < size && Taken(segments, size, kernelStart, kernelEnd) == Below(n) && LeastFree(Below(n)) == n
    ensures Reserved(segments, size) + FramesOf(kernelStart, kernelEnd - kernelStart) == Below(n) <= Below(size) && |Below(n)| == n
  {
    hide Reserved, FramesOf;
  }

  lemma MayRequest(pm: FrameAllocator, total: nat, n: nat)
    requires pm.Valid() && pm.locked == Below(n) + {n} && LeastFree(Below(n) + {n}) == n + 1 && n + 2 < pm.Size()
    requires pm.Total() == total < WORD && PAGE_SIZE * n + 2 * PAGE_SIZE <= total
    ensures PAGE_SIZE <= pm.free && pm.firstFree == n + 1 && pm.Spare({pm.firstFree}) && LeastFree(pm.locked) == n + 1
  {
    assert |pm.locked| == n + 1;
    hide Below, LeastFree, IsLeastFree, Plus, Minus;
    pm.FreeBytes(total);
    SpareAt(pm, {n + 1}, n + 2);
  }

  /** Memory maps like that: `m` reserved pages at the bottom, then the image up to page `n`, then free memory up to page `all`. */
  lemma SuchAMap(m: nat, n: nat, all: nat, size: nat)
    requires 0 < m < n && n + 2 <= all && PAGE_SIZE * all < WORD && 0 < size
    ensures var segments := [Segment(true, 0, m * PAGE_SIZE), Segment(false, m * PAGE_SIZE, (all - m) * PAGE_SIZE)];
            && Taken(segments, size, m * PAGE_SIZE, n * PAGE_SIZE) == Below(n)
            && PAGE_SIZE * n + 2 * PAGE_SIZE <= TotalBytes(segments) < WORD
  {
    TwoSegments(Segment(true, 0, m * PAGE_SIZE), Segment(false, m * PAGE_SIZE, (all - m) * PAGE_SIZE), size);
    FramesBelow(m, n);
    hide FramesOf, Reserved, TotalBytes, Below;
  }

  lemma FramesBelow(m: nat, n: nat)
    requires 0 < m < n
    ensures FramesOf(0, m * PAGE_SIZE) + FramesOf(m * PAGE_SIZE, n * PAGE_SIZE - m * PAGE_SIZE) == Below(n)
  {
    hide FramesOf, RangeLength, Span, Below;
    RunLength(0, m);
    RunLength(m, n - m);
    SpanJoin(m, n);
  }

  lemma SpanJoin(m: nat, n: nat)
    requires m <= n
    ensures Span(0, m) + Span(m, n) == Below(n)
  {
    hide Below, Span;
  }

  lemma TwoSegments(a: Segment, b: Segment, size: nat)
    requires a.reserved && a.addr / PAGE_SIZE < size && !b.reserved
    ensures Reserved([a, b], size) == FramesOf(a.addr, a.length) && TotalBytes([a, b]) == a.length + b.length
  {
    hide FramesOf;
    assert [a, b][..1] == [a] && [a][..0] == [];
    assert Reserved([], size) == {} && TotalBytes([]) == 0;
    assert Reserved([a], size) == FramesOf(a.addr, a.length) && TotalBytes([a]) == a.length;
  }
}
