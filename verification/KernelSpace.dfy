/**
 * The kernel's own address space: the entry points of the virtual memory manager (arch/x86_64/mm/vm.c)
 * on the kernel's tables, against the flat view of the page tree.
 */
module KernelSpace {
  import opened Machine
  import opened Status
  import opened FrameSet
  import opened Paging
  import opened PageTree
  import opened PageMap
  import opened PageFlag
  import opened PageUnmap
  import opened PageSearch
  import opened PageRuns
  import opened PageOrder
  import opened PageView
  import opened PageStraight
  import opened PageStrike
  import opened Tlb
  import opened PhysicalMemory
  import opened VirtualMemory

  /** LAYOUT_HEAP_START, the lowest kernel address. */
  const KERNEL_START: nat := 0xffff_8000_0000_0000
  /** Physical addresses have 52 bits. */
  const PHYSICAL_LIMIT: nat := 0x10_0000_0000_0000

  predicate IsKernelAddress(vaddr: nat) {
    KERNEL_START <= vaddr < WORD
  }

  function PageOffset(a: nat): nat {
    a % PAGE_SIZE
  }

  function AlignDown(a: nat): nat {
    a - a % PAGE_SIZE
  }

  function AlignUp(a: nat): nat {
    RoundUp(a, PAGE_SIZE)
  }

  function FrameOf(paddr: nat): nat {
    paddr / PAGE_SIZE
  }

  function PageOf(vaddr: nat): (page: nat)
    ensures page < PAGE_LIMIT
  {
    vaddr / PAGE_SIZE % PAGE_LIMIT
  }

  /** The page number in the upper half that a kernel address lies in. */
  lemma KernelPage(vaddr: nat)
    requires IsKernelAddress(vaddr)
    ensures PageOf(vaddr) == (vaddr - KERNEL_START) / PAGE_SIZE + PAGE_LIMIT / 2
  {
    var d := vaddr - KERNEL_START;
    assert KERNEL_START == 0xf_fff8_0000_0000 * PAGE_SIZE;
    assert vaddr / PAGE_SIZE == d / PAGE_SIZE + 0xf_fff8_0000_0000;
  }

  /** The address with the four indices of `idx` in place of those of `hint`. */
  function Rebuild(hint: nat, idx: seq<nat>): nat
    requires |idx| == 4
  {
    var page := idx[0] % PT_LENGTH * 0x800_0000 + idx[1] % PT_LENGTH * 0x4_0000 + idx[2] % PT_LENGTH * PT_LENGTH + idx[3] % PT_LENGTH;
    var sign := if idx[0] / 0x100 % 2 == 1 then 0xffff else hint / 0x1_0000_0000_0000;
    sign * 0x1_0000_0000_0000 + page * PAGE_SIZE + hint % PAGE_SIZE
  }

  /** An address is rebuilt from its own indices. */
  lemma RebuildSame(hint: nat)
    requires IsKernelAddress(hint)
    ensures Rebuild(hint, Indices(PageOf(hint))) == hint
  {
    var page := PageOf(hint);
    var i := Indices(page);
    Digits(page);
    KernelPage(hint);
    assert page * PAGE_SIZE + hint % PAGE_SIZE == hint - 0xffff * 0x1_0000_0000_0000 by { HighBits(hint); }
    assert i[0] / 0x100 % 2 == 1 by { HighIndex(page); }
    assert forall k | 0 <= k < 4 :: i[k] % PT_LENGTH == i[k];
  }

  /** Whatever the indices are, the address rebuilt has them, keeps the offset of the hint, and is canonical in the upper half. */
  lemma RebuildIs(hint: nat, idx: seq<nat>)
    requires |idx| == 4 && forall k | 0 <= k < 4 :: idx[k] < 512
    ensures var a := Rebuild(hint, idx);
            && Indices(PageOf(a)) == idx && a % 4096 == hint % 4096
            && a / 0x1_0000_0000_0000 == if idx[0] >= 256 then 0xffff else hint / 0x1_0000_0000_0000
  {
    var page := idx[0] * 0x800_0000 + idx[1] * 0x4_0000 + idx[2] * PT_LENGTH + idx[3];
    IndicesAre(idx[0], idx[1], idx[2], idx[3]);
    RebuiltAs(hint, idx, page);
    assert page / 0x800_0000 == idx[0];
    var sign := if idx[0] >= 256 then 0xffff else hint / 0x1_0000_0000_0000;
    hide Rebuild, PageOf, Indices;
    Composed(sign, page, hint % PAGE_SIZE);
    assert [idx[0], idx[1], idx[2], idx[3]] == idx;
  }

  lemma IndicesAre(a: nat, b: nat, c: nat, d: nat)
    requires a < 512 && b < 512 && c < 512 && d < 512
    ensures var page := a * 0x800_0000 + b * 0x4_0000 + c * 512 + d;
            page < PAGE_LIMIT && page / 0x800_0000 == a && Indices(page) == [a, b, c, d]
  {
    var page := a * 0x800_0000 + b * 0x4_0000 + c * 512 + d;
    assert page / 0x800_0000 == a;
    assert page / 0x4_0000 == a * 512 + b;
    assert page / 512 == a * 0x4_0000 + b * 512 + c;
    assert page % 512 == d;
  }

  lemma RebuiltAs(hint: nat, idx: seq<nat>, page: nat)
    requires |idx| == 4 && (forall k | 0 <= k < 4 :: idx[k] < 512)
    requires page == idx[0] * 0x800_0000 + idx[1] * 0x4_0000 + idx[2] * 512 + idx[3]
    ensures Rebuild(hint, idx) ==
            (if idx[0] >= 256 then 0xffff else hint / 0x1_0000_0000_0000) * 0x1_0000_0000_0000 + page * PAGE_SIZE + hint % PAGE_SIZE
  {
    assert idx[0] / 0x100 % 2 == 1 <==> idx[0] >= 256;
    assert forall k | 0 <= k < 4 :: idx[k] % PT_LENGTH == idx[k];
  }

  lemma Composed(sign: nat, page: nat, offset: nat)
    requires page < PAGE_LIMIT && offset < PAGE_SIZE
    ensures var a := sign * 0x1_0000_0000_0000 + page * PAGE_SIZE + offset;
            PageOf(a) == page && a % 4096 == offset && a / 0x1_0000_0000_0000 == sign
  {
    var a := sign * 0x1_0000_0000_0000 + page * PAGE_SIZE + offset;
    assert a / PAGE_SIZE == sign * PAGE_LIMIT + page;
  }

  lemma HighBits(hint: nat)
    requires IsKernelAddress(hint)
    ensures PageOf(hint) * PAGE_SIZE + hint % PAGE_SIZE == hint - 0xffff * 0x1_0000_0000_0000
  {
    var d := hint - KERNEL_START;
    KernelPage(hint);
    assert d % PAGE_SIZE == hint % PAGE_SIZE && d / PAGE_SIZE * PAGE_SIZE + d % PAGE_SIZE == d;
  }

  lemma HighIndex(page: nat)
    requires PAGE_LIMIT / 2 <= page < PAGE_LIMIT
    ensures Indices(page)[0] / 0x100 % 2 == 1
  {
    Digits(page);
    assert Indices(page)[0] >= 0x100;
  }

  // ---- State ---------------------------------------------------------------------------------

  /** The search finds room for the run at its first page. */
  ghost predicate FitsAt(tree: seq<Node>, page: nat, pages: nat) {
    Fits(tree, 0, Indices(page), pages)
  }

  /**
   * The run may be tried: it starts inside the tree and, if there is room for it, stays inside, and the frames its
   * tables will take are among `after`. A request that is not strict has to find room at once.
   */
  ghost predicate Prepared(tree: seq<Node>, locked: set<nat>, page: nat, pages: nat, frame: nat, flags: Flags, after: set<nat>) {
    && 0 < pages && page < PAGE_LIMIT && !View(tree, page).Outside? && !flags.user
    && if FitsAt(tree, page, pages) then
         var goal := Mapping(tree, locked, page, pages, frame, flags).1;
         !goal.lost && goal.locked <= after
       else flags.strict
  }

  /** A straight run for which there is room: its pages are free, and are mapped one by one to consecutive frames. */
  lemma MappingStraight(tree: seq<Node>, locked: set<nat>, page: nat, pages: nat, frame: nat, flags: Flags)
    requires Shaped(tree, 0) && StraightRange(page, pages) && FitsAt(tree, page, pages)
    ensures var (tree', goal) := Mapping(tree, locked, page, pages, frame, flags);
            && !goal.lost && goal.pages == 0 && locked <= goal.locked
            && RangeFree(tree, page, pages) && MapsRange(tree, tree', page, pages, frame, flags)
  {
    hide MapFrom, Fits, Indices, MapsRange, StraightRange, RangeFree;
    FitsFreeRange(tree, page, pages);
    MapStraight(tree, locked, page, pages, frame, flags);
  }

  /**
   * Where there is room for a run and it stays inside the tree, its pages are all mapped, in their order and without
   * touching others, if and only if it is straight; so are they already if none outside the range is touched.
   */
  lemma MappingStraightIff(tree: seq<Node>, locked: set<nat>, page: nat, pages: nat, frame: nat, flags: Flags)
    requires Shaped(tree, 0) && 0 < pages && page < PAGE_LIMIT && FitsAt(tree, page, pages)
    requires !Mapping(tree, locked, page, pages, frame, flags).1.lost
    ensures var (tree', goal) := Mapping(tree, locked, page, pages, frame, flags);
            && (goal.pages == 0 && MapsRange(tree, tree', page, pages, frame, flags) <==> StraightRange(page, pages))
            && (goal.pages == 0 && KeepsOthers(tree, tree', page, pages) <==> StraightRange(page, pages))
  {
    hide MapFrom, Fits, Indices, StraightRange, RangeFree, View, Rights;
    var (tree', goal) := Mapping(tree, locked, page, pages, frame, flags);
    if StraightRange(page, pages) {
      MappingStraight(tree, locked, page, pages, frame, flags);
    }
    assert MapsRange(tree, tree', page, pages, frame, flags) ==> KeepsOthers(tree, tree', page, pages);
    hide MapsRange, KeepsOthers;
    if goal.pages == 0 && KeepsOthers(tree, tree', page, pages) {
      RangeStraight(tree, locked, page, pages, frame, flags);
    }
  }

  /** A run within one leaf table: there is room if and only if its pages are free, and three new tables are enough. */
  lemma MappingOneTable(tree: seq<Node>, locked: set<nat>, page: nat, pages: nat, frame: nat, flags: Flags)
    requires Shaped(tree, 0) && OneTable(page, pages) && !View(tree, page).Outside?
    ensures StraightRange(page, pages) && (FitsAt(tree, page, pages) <==> RangeFree(tree, page, pages))
    ensures FitsAt(tree, page, pages) ==> |Mapping(tree, locked, page, pages, frame, flags).1.locked| <= |locked| + PT_LAST_LEVEL
  {
    assert Indices(page)[3] + pages <= PT_LENGTH;
    hide MapFrom, Fits, Indices, MapsRun, RangeFree, StraightRange;
    OneTableStraight(page, pages);
    FreeFits(tree, page, pages);
    if FitsAt(tree, page, pages) {
      MapOneLeaf(tree, 0, Indices(page), Run(locked, frame, pages, false), flags);
    }
  }

  lemma Shape(vm: PageTables)
    requires vm.Valid()
    ensures Shaped(vm.tree, 0)
  {
    TreeShaped(vm.mem, vm.Spine(), vm.kpml4, vm.tree, 0);
  }

  /** Three frames are enough for the tables of a run within one leaf table. */
  lemma RoomyToMap(vm: PageTables, page: nat, pages: nat, frame: nat, flags: Flags, more: nat)
    requires vm.Valid() && OneTable(page, pages) && !View(vm.tree, page).Outside? && FitsAt(vm.tree, page, pages)
    requires vm.pm.Roomy(PT_LAST_LEVEL + more)
    ensures vm.pm.Affords(Taking(Mapping(vm.tree, vm.pm.locked, page, pages, frame, flags).1.locked, more))
  {
    hide Mapping, Indices, FitsAt, OneTable;
    Shape(vm);
    MappingOneTable(vm.tree, vm.pm.locked, page, pages, frame, flags);
    OneTableStraight(page, pages);
    MappingStraight(vm.tree, vm.pm.locked, page, pages, frame, flags);
    vm.pm.RoomyAffords(PT_LAST_LEVEL + more, Taking(Mapping(vm.tree, vm.pm.locked, page, pages, frame, flags).1.locked, more));
  }

  /** Every mapped frame is locked. */
  ghost predicate AllBacked(tree: seq<Node>, locked: set<nat>) {
    forall v: nat | v < PAGE_LIMIT && View(tree, v).Mapped? :: View(tree, v).entry.frame in locked
  }

  // ---- Mapping -------------------------------------------------------------------------------

  /** The second half of `vm_map_pages`. */
  method MapFound(vm: PageTables, page: nat, frame: nat, pages: nat, flags: Flags, ghost after: set<nat>) returns (res: Status)
    requires vm.Valid() && Coherent(vm.tree, vm.tlb)
    requires Prepared(vm.tree, vm.pm.locked, page, pages, frame, flags, after) && FitsAt(vm.tree, page, pages) && vm.pm.Affords(after)
    modifies vm, vm.pm, vm.pm.bitmap`unset, vm.pm.bitmap.bytes
    ensures vm.Valid() && Coherent(vm.tree, vm.tlb) && vm.pm.Affords(after) && vm.tlb == old(vm.tlb)
    ensures res == SUCCESS && RunDone(old(vm.tree), vm.tree, old(vm.pm.locked), vm.pm.locked, page, pages, frame, flags)
  {
    ghost var tree0, run := vm.tree, Run(vm.pm.locked, frame, pages, false);
    ghost var (tree', goal) := Mapping(tree0, run.locked, page, pages, frame, flags);
    Shape(vm);
    MapCoherent(tree0, vm.tlb, run.locked, page, pages, frame, flags);
    assert (tree', goal) == MapFrom(tree0, 0, Indices(page), Indices(page)[0], run, flags);
    ReadyToMap(vm);
    hide *;
    ghost var m0, tmp0 := vm.mem, vm.tmpPt;
    var frame', pages';
    res, frame', pages' := vm.RecurseMap(Image(vm.kpml4), Indices(page), 0, frame, pages, flags, tree0, run, tree', goal, after);
    vm.GrownSettled(m0, run.locked, tmp0, tree0, tree', after);
    vm.DoneIs(goal, frame', pages');
    RunDoneIs(tree0, tree', run.locked, vm.pm.locked, page, pages, frame, flags, goal);
    vm.Replant(tree');
  }

  /** The tables are those the function on trees says, and each new one is a frame that was free. */
  ghost predicate RunDone(tree: seq<Node>, tree': seq<Node>, locked: set<nat>, locked': set<nat>,
                         page: nat, pages: nat, frame: nat, flags: Flags) {
    && tree' == Mapping(tree, locked, page, pages, frame, flags).0 && locked' == Mapping(tree, locked, page, pages, frame, flags).1.locked
    && Tables(tree') == Tables(tree) + (locked' - locked)
  }

  lemma RunDoneIs(tree: seq<Node>, tree': seq<Node>, locked: set<nat>, locked': set<nat>,
                 page: nat, pages: nat, frame: nat, flags: Flags, goal: Run)
    requires (tree', goal) == Mapping(tree, locked, page, pages, frame, flags) && locked' == goal.locked
    requires Tables(tree') == Tables(tree) + (locked' - locked)
    ensures RunDone(tree, tree', locked, locked', page, pages, frame, flags)
  {
  }

  lemma ReadyToMap(vm: PageTables)
    requires vm.Valid()
    ensures vm.Ready(Image(vm.kpml4), vm.tree, 0) && vm.Owned(Image(vm.kpml4), vm.tree)
  {
  }

  /** What a call that maps a run promises: all of it if there is room, otherwise nothing and an error. */
  ghost predicate MapOutcome(tree: seq<Node>, tree': seq<Node>, locked: set<nat>, locked': set<nat>,
                             page: nat, pages: nat, frame: nat, flags: Flags, hint: nat, res: Status, hint': nat) {
    && hint' == hint
    && if FitsAt(tree, page, pages) then res == SUCCESS && RunDone(tree, tree', locked, locked', page, pages, frame, flags)
       else res == EOVERLAP && tree' == tree && locked' == locked
  }

  /** `find_space` on the kernel's tables. */
  method Search(vm: PageTables, page: nat, frame: nat, pages: nat, flags: Flags) returns (res: Status, idx: seq<nat>)
    requires vm.Valid() && 0 < pages && page < PAGE_LIMIT && !View(vm.tree, page).Outside? && !flags.user
    requires flags.strict || FitsAt(vm.tree, page, pages)
    modifies vm`tmpTlb, vm`tmpPt, vm`firstFreeTmp
    ensures vm.Valid() && idx == Indices(page)
    ensures if FitsAt(vm.tree, page, pages) then res >= pages else res == EOVERLAP
  {
    ghost var tmp0, root := vm.tmpPt, vm.kpml4;
    PathIs(page);
    assert Inside(vm.tree, 0, Indices(page));
    ReadyToSearch(vm);
    hide Tree, Tables, Indices, Fits, FitsAt, FreeSlots, Lookup, SearchBounds, SearchTold, Inside;
    hide PageTables.WindowOk, PageTables.Stands, PageTables.Owns, PageTables.Valid, PageTables.Ready, PageTables.Settled;
    res, idx := vm.FindSpace(Image(vm.kpml4), Indices(page), 0, frame, pages, flags, true, vm.tree);
    SearchDone(vm.tree, Indices(page), page, pages, flags, res, idx);
    Searched(vm);
  }

  lemma ReadyToSearch(vm: PageTables)
    requires vm.Valid()
    ensures vm.pm.Valid() && vm.WindowOk() && vm.Usable(Image(vm.kpml4)) && PT_LAST_LEVEL <= |FreeSlots(vm.tmpPt)|
    ensures vm.Stands(vm.mem, vm.tmpPt, Image(vm.kpml4), vm.tree, 0) && vm.Owns(vm.pm.locked, vm.tmpPt, Image(vm.kpml4), vm.tree)
  {
  }

  lemma Searched(vm: PageTables)
    requires vm.pm.Valid() && vm.WindowOk()
    requires vm.Stands(vm.mem, vm.tmpPt, Image(vm.kpml4), vm.tree, 0) && vm.Owns(vm.pm.locked, vm.tmpPt, Image(vm.kpml4), vm.tree)
    ensures vm.Valid()
  {
  }

  lemma SearchDone(tree: seq<Node>, start: seq<nat>, page: nat, pages: nat, flags: Flags, res: Status, idx: seq<nat>)
    requires start == Indices(page) && (flags.strict || FitsAt(tree, page, pages))
    requires SearchBounds(0, start, pages, flags, res, idx) && SearchTold(tree, 0, start, pages, flags, res, idx)
    ensures idx == start && if FitsAt(tree, page, pages) then res >= pages else res == EOVERLAP
  {
    PathIs(page);
    hide Fits;
  }

  /**
   * `vm_map_pages` on the kernel's tables, for any run: it succeeds exactly if the search finds room. `after` is a set
   * of frames the allocator can go on to lock.
   */
  method VmMapPages(vm: PageTables, frame: nat, pages: nat, hint: nat, flags: Flags, ghost after: set<nat>)
    returns (res: Status, hint': nat)
    requires vm.Valid() && Coherent(vm.tree, vm.tlb)
    requires IsKernelAddress(hint) && PageOffset(hint) == 0 && vm.pm.Affords(after)
    requires Prepared(vm.tree, vm.pm.locked, PageOf(hint), pages, frame, flags, after)
    modifies vm, vm.pm, vm.pm.bitmap`unset, vm.pm.bitmap.bytes
    ensures vm.Valid() && Coherent(vm.tree, vm.tlb) && vm.pm.Affords(after) && vm.tlb == old(vm.tlb)
    ensures MapOutcome(old(vm.tree), vm.tree, old(vm.pm.locked), vm.pm.locked, PageOf(hint), pages, frame, flags, hint, res, hint')
    ensures res != SUCCESS ==> vm.mem == old(vm.mem)
  {
    hide Indices, PageOf, Mapping, FitsAt, RunDone, Coherent, Tables, View;
    var idx;
    res, idx := Search(vm, PageOf(hint), frame, pages, flags);
    if IsError(res) {
      return res, hint;
    }
    res := MapFound(vm, PageOf(hint), frame, pages, flags, after);
    RebuildSame(hint);
    hint' := Rebuild(hint, idx);
  }

  /**
   * `vmk_map_pages`. The end of the image need not lie at a page boundary: without a hint, the assertion in
   * `vm_map_pages` stops the kernel exactly if it does not.
   */
  method VmkMapPages(vm: PageTables, imageEnd: nat, frame: nat, pages: nat, hint: nat, flags: Flags, ghost after: set<nat>)
    returns (halted: bool, res: Status, hint': nat)
    requires vm.Valid() && Coherent(vm.tree, vm.tlb) && vm.pm.Affords(after)
    requires IsKernelAddress(if hint == 0 then imageEnd else hint)
    requires Prepared(vm.tree, vm.pm.locked, PageOf(if hint == 0 then imageEnd else hint), pages, frame, flags, after)
    modifies vm, vm.pm, vm.pm.bitmap`unset, vm.pm.bitmap.bytes
    ensures vm.Valid() && Coherent(vm.tree, vm.tlb) && vm.pm.Affords(after) && vm.tlb == old(vm.tlb)
    ensures hint' == if hint == 0 then imageEnd else hint
    ensures halted <==> PageOffset(hint') != 0
    ensures !halted ==> MapOutcome(old(vm.tree), vm.tree, old(vm.pm.locked), vm.pm.locked, PageOf(hint'), pages, frame, flags,
                                   hint', res, hint')
    ensures halted || res != SUCCESS ==> vm.mem == old(vm.mem)
    ensures halted ==> vm.tree == old(vm.tree) && vm.pm.locked == old(vm.pm.locked)
  {
    hide PageTables.Valid, FrameAllocator.Affords, Coherent, Prepared, RunDone, FitsAt, PageOf, IsKernelAddress, PageOffset;
    hint' := if hint == 0 then imageEnd else hint;
    halted := PageOffset(hint') != 0;
    if halted {
      res := SUCCESS;
    } else {
      var got;
      res, got := VmMapPages(vm, frame, pages, hint', flags, after);
      hint' := got;
    }
  }

  /** Pages needed for `bytes` bytes from the physical address on. */
  function PagesSpanned(paddr: nat, bytes: nat): nat {
    PageCount(PageOffset(paddr) + bytes)
  }

  /** They hold the bytes from the beginning of the first one's frame on, and one page less would not. */
  lemma SpannedHold(paddr: nat, bytes: nat)
    ensures paddr % 4096 + bytes <= 4096 * PagesSpanned(paddr, bytes) < paddr % 4096 + bytes + 4096
  {
    PagesHold(paddr % 4096 + bytes);
  }

  /** The tree leads from byte `b` past the virtual address to byte `b` past the physical one. */
  ghost predicate Translates(tree: seq<Node>, vaddr: nat, paddr: nat, b: nat) {
    match View(tree, PageOf(vaddr + b))
    case Mapped(e) => paddr + b == e.frame * PAGE_SIZE + PageOffset(vaddr + b)
    case _ => false
  }

  ghost predicate TranslatesAll(tree: seq<Node>, vaddr: nat, paddr: nat, bytes: nat) {
    forall b: nat | b < bytes :: Translates(tree, vaddr, paddr, b)
  }

  /**
   * What a call that maps a range of bytes promises: the address returned, whatever the outcome, is the hint's page with the
   * offset of the physical address; and if the pages are a straight run, byte b past it leads to byte b of the physical range.
   */
  ghost predicate BytesOutcome(tree: seq<Node>, tree': seq<Node>, locked: set<nat>, locked': set<nat>, paddr: nat, bytes: nat, flags: Flags,
                               hint: nat, res: Status, hint': nat) {
    && hint' == hint / 4096 * 4096 + paddr % 4096
    && MapOutcome(tree, tree', locked, locked', PageOf(hint), PagesSpanned(paddr, bytes), FrameOf(paddr), flags, hint', res, hint')
    && (res == SUCCESS && StraightRange(PageOf(hint), PagesSpanned(paddr, bytes)) ==> TranslatesAll(tree', hint', paddr, bytes))
  }

  /** `vm_map_bytes`, for any start. */
  method VmMapBytes(vm: PageTables, paddr: nat, bytes: nat, hint: nat, flags: Flags, ghost after: set<nat>)
    returns (res: Status, hint': nat)
    requires vm.Valid() && Coherent(vm.tree, vm.tlb) && vm.pm.Affords(after)
    requires IsKernelAddress(hint) && paddr + bytes <= PHYSICAL_LIMIT
    requires Prepared(vm.tree, vm.pm.locked, PageOf(hint), PagesSpanned(paddr, bytes), FrameOf(paddr), flags, after)
    modifies vm, vm.pm, vm.pm.bitmap`unset, vm.pm.bitmap.bytes
    ensures vm.Valid() && Coherent(vm.tree, vm.tlb) && vm.pm.Affords(after) && vm.tlb == old(vm.tlb)
    ensures BytesOutcome(old(vm.tree), vm.tree, old(vm.pm.locked), vm.pm.locked, paddr, bytes, flags, hint, res, hint')
  {
    AlignedPage(hint);
    Shape(vm);
    var at, frame, pages := AlignDown(hint), FrameOf(paddr), PagesSpanned(paddr, bytes);
    var offset := PageOffset(paddr);
    ghost var tree0, locked0, page := vm.tree, vm.pm.locked, PageOf(at);
    assert page == PageOf(hint);
    hide *;
    var got;
    res, got := VmMapPages(vm, frame, pages, at, flags, after);
    hint' := got + offset;
    BytesMapped(tree0, vm.tree, locked0, vm.pm.locked, paddr, bytes, hint, res, got, hint', flags);
  }

  lemma BytesMapped(tree: seq<Node>, tree': seq<Node>, locked: set<nat>, locked': set<nat>, paddr: nat, bytes: nat,
                    hint: nat, res: Status, at: nat, hint': nat, flags: Flags)
    requires IsKernelAddress(hint) && PageOffset(AlignDown(hint)) == 0 && IsKernelAddress(AlignDown(hint))
    requires PageOf(AlignDown(hint)) == PageOf(hint) && Shaped(tree, 0) && paddr + bytes <= PHYSICAL_LIMIT
    requires MapOutcome(tree, tree', locked, locked', PageOf(AlignDown(hint)), PagesSpanned(paddr, bytes), FrameOf(paddr), flags,
                        AlignDown(hint), res, at)
    requires hint' == at + PageOffset(paddr)
    ensures BytesOutcome(tree, tree', locked, locked', paddr, bytes, flags, hint, res, hint')
  {
    assert StraightRange(PageOf(at), PagesSpanned(paddr, bytes)) ==> PageOf(at) + PagesSpanned(paddr, bytes) <= PAGE_LIMIT;
    assert AlignDown(hint) == hint / 4096 * 4096;
    hide Rights, RangeFree, Translates, MapsRange, Mapping, FitsAt, Indices, Tables, StraightRange;
    if res == SUCCESS && StraightRange(PageOf(hint), PagesSpanned(paddr, bytes)) {
      MappingStraight(tree, locked, PageOf(at), PagesSpanned(paddr, bytes), FrameOf(paddr), flags);
      forall b: nat | b < bytes
        ensures Translates(tree', hint', paddr, b)
      {
        ByteMapped(tree, tree', paddr, bytes, at, flags, b);
      }
    }
  }

  /** `vmk_map_bytes` aligns the address down, so that any end of the image will do. */
  method VmkMapBytes(vm: PageTables, imageEnd: nat, paddr: nat, bytes: nat, hint: nat, flags: Flags, ghost after: set<nat>)
    returns (res: Status, hint': nat)
    requires vm.Valid() && Coherent(vm.tree, vm.tlb) && vm.pm.Affords(after)
    requires IsKernelAddress(if hint == 0 then imageEnd else hint) && paddr + bytes <= PHYSICAL_LIMIT
    requires Prepared(vm.tree, vm.pm.locked, PageOf(if hint == 0 then imageEnd else hint), PagesSpanned(paddr, bytes), FrameOf(paddr), flags, after)
    modifies vm, vm.pm, vm.pm.bitmap`unset, vm.pm.bitmap.bytes
    ensures vm.Valid() && Coherent(vm.tree, vm.tlb) && vm.pm.Affords(after) && vm.tlb == old(vm.tlb)
    ensures BytesOutcome(old(vm.tree), vm.tree, old(vm.pm.locked), vm.pm.locked, paddr, bytes, flags, if hint == 0 then imageEnd else hint,
                         res, hint')
  {
    hide *;
    var at := if hint == 0 then imageEnd else hint;
    res, hint' := VmMapBytes(vm, paddr, bytes, at, flags, after);
  }

  lemma AlignedPage(vaddr: nat)
    requires IsKernelAddress(vaddr)
    ensures PageOffset(AlignDown(vaddr)) == 0 && IsKernelAddress(AlignDown(vaddr)) && PageOf(AlignDown(vaddr)) == PageOf(vaddr)
  {
    var at := AlignDown(vaddr);
    assert at == vaddr / PAGE_SIZE * PAGE_SIZE;
    assert at / PAGE_SIZE == vaddr / PAGE_SIZE;
    assert KERNEL_START == KERNEL_START / PAGE_SIZE * PAGE_SIZE && vaddr / PAGE_SIZE >= KERNEL_START / PAGE_SIZE;
  }

  /** Byte `b` past an aligned kernel address lies `b / PAGE_SIZE` pages on. */
  lemma PageOn(at: nat, b: nat)
    requires IsKernelAddress(at) && PageOffset(at) == 0 && PageOf(at) + b / PAGE_SIZE < PAGE_LIMIT
    ensures PageOf(at + b) == PageOf(at) + b / PAGE_SIZE && PageOffset(at + b) == b % PAGE_SIZE
    ensures IsKernelAddress(at + b)
  {
    var q := at / PAGE_SIZE;
    assert at == q * PAGE_SIZE;
    assert (at + b) / PAGE_SIZE == q + b / PAGE_SIZE && (at + b) % PAGE_SIZE == b % PAGE_SIZE;
    KernelPage(at);
    assert q == 0xf_fff8_0000_0000 + (PageOf(at) - PAGE_LIMIT / 2);
    assert (q + b / PAGE_SIZE) / PAGE_LIMIT == 0xffff;
  }

  lemma ByteMapped(tree: seq<Node>, tree': seq<Node>, paddr: nat, bytes: nat, at: nat, flags: Flags, b: nat)
    requires IsKernelAddress(at) && PageOffset(at) == 0 && PageOf(at) + PagesSpanned(paddr, bytes) <= PAGE_LIMIT
    requires MapsRange(tree, tree', PageOf(at), PagesSpanned(paddr, bytes), FrameOf(paddr), flags)
    requires b < bytes && paddr + b < PHYSICAL_LIMIT
    ensures Translates(tree', at + PageOffset(paddr), paddr, b)
  {
    var page, d := PageOf(at), paddr % PAGE_SIZE + b;
    assert d / PAGE_SIZE < PagesSpanned(paddr, bytes);
    PageOn(at, d);
    hide PageOf, View, Rights;
    assert View(tree', page + d / PAGE_SIZE) == Mapped(SetPte(paddr / PAGE_SIZE + d / PAGE_SIZE, flags));
    assert paddr + b == paddr / PAGE_SIZE * PAGE_SIZE + d;
    assert paddr / PAGE_SIZE + d / PAGE_SIZE == (paddr + b) / PAGE_SIZE;
    assert at + PageOffset(paddr) + b == at + d;
  }

  // ---- Translating ---------------------------------------------------------------------------

  /** `vmk_vaddr_to_paddr`. */
  method VmkVaddrToPaddr(vm: PageTables, vaddr: nat) returns (res: Status, paddr: nat)
    requires vm.Valid() && IsKernelAddress(vaddr) && !View(vm.tree, PageOf(vaddr)).Outside?
    modifies vm`tmpTlb, vm`tmpPt, vm`firstFreeTmp
    ensures vm.Valid()
    ensures View(vm.tree, PageOf(vaddr)).Mapped? ==> res == SUCCESS && Translates(vm.tree, vaddr, paddr, 0)
    ensures View(vm.tree, PageOf(vaddr)).Unmapped? ==> res == ENOMAP
  {
    PathIs(PageOf(vaddr));
    ghost var tmp0 := vm.tmpPt;
    ReadyToSearch(vm);
    hide Tree, Tables, Indices, PathOf, FreeSlots, Lookup, PageTables.WindowOk, PageTables.Stands, PageTables.Owns, PageOf;
    hide PageTables.Valid, PageTables.Settled;
    var frame;
    ReadyToWalk(vm);
    res, frame := vm.RecurseFind(Image(vm.kpml4), Indices(PageOf(vaddr)), 0, vm.tree);
    paddr := frame * PAGE_SIZE + PageOffset(vaddr);
    Searched(vm);
  }

  lemma ReadyToWalk(vm: PageTables)
    requires vm.Valid()
    ensures vm.Ready(Image(vm.kpml4), vm.tree, 0)
  {
  }

  /** Translating byte `b` of a range mapped byte by byte gives byte `b` of the physical range. */
  lemma BytesRoundTrip(tree: seq<Node>, vaddr: nat, paddr: nat, bytes: nat, b: nat, found: nat)
    requires TranslatesAll(tree, vaddr, paddr, bytes) && b < bytes && Translates(tree, vaddr + b, found, 0)
    ensures found == paddr + b
  {
    hide View, PageOf;
    assert Translates(tree, vaddr, paddr, b);
  }

  /** The frame the processor uses for a page: the cached one if there is one, otherwise what its walk finds, which it caches. */
  method Access(vm: PageTables, page: nat) returns (w: Option)
    requires vm.Valid() && Coherent(vm.tree, vm.tlb) && page < PAGE_LIMIT && !View(vm.tree, page).Outside?
    modifies vm`tlb
    ensures vm.Valid() && Coherent(vm.tree, vm.tlb)
    ensures w == match View(vm.tree, page) case Mapped(e) => Some(e.frame) case _ => None
  {
    if page in vm.tlb {
      return Some(vm.tlb[page]);
    }
    WalkOf(vm, page);
    match Walk(vm.Ram(), vm.kpml4, PathOf(page))
    case Fault =>
      w := None;
    case Reached(frame, _, _, _) =>
      vm.tlb := vm.tlb[page := frame];
      w := Some(frame);
  }

  datatype Option = None | Some(frame: nat)

  /** In physical memory as the processor sees it, the walk of a page inside the tree finds what the tree says. */
  lemma WalkOf(vm: PageTables, page: nat)
    requires vm.Valid() && !View(vm.tree, page).Outside?
    ensures Walk(vm.Ram(), vm.kpml4, PathOf(page)) == Rights(vm.tree, page)
    ensures match View(vm.tree, page)
            case Mapped(e) => Rights(vm.tree, page).Reached? && Rights(vm.tree, page).frame == e.frame
            case _ => Rights(vm.tree, page) == Fault
  {
    PathIs(page);
    RamHolds(vm);
    hide Tree, PathOf, PageTables.Valid, PageTables.Ram;
    WalkAgrees(vm.Ram(), vm.Spine(), vm.kpml4, vm.tree, 0, PathOf(page));
  }

  lemma RamHolds(vm: PageTables)
    requires vm.Valid()
    ensures Tree(vm.Ram(), vm.Spine(), vm.kpml4, vm.tree, 0)
  {
    var m, m' := vm.mem, vm.Ram();
    assert vm.Stands(m, vm.tmpPt, Image(vm.kpml4), vm.tree, 0);
    hide PageTables.WindowOk, PageTables.Valid, Tree;
    TreeFrame(m, m', vm.Spine(), vm.kpml4, vm.tree, 0);
  }

  /** The walkers that lock nothing leave the allocator alone. */
  twostate lemma FramesKept(vm: PageTables)
    requires old(vm.pm.Valid()) && unchanged(vm.pm) && unchanged(vm.pm.bitmap) && unchanged(vm.pm.bitmap.bytes)
    ensures vm.pm.Valid()
  {
  }

  // ---- Unmapping -----------------------------------------------------------------------------

  /** What unmapping `pages` pages from `page` on does, as a function on trees. */
  ghost function Unmapping(tree: seq<Node>, page: nat, pages: nat): (r: (seq<Node>, UnmapRun)) {
    UnmapFrom(tree, 0, UnmapRun(Indices(page), page, 0, [], false), pages)
  }

  /** The pages struck are untranslatable; every other translation is as before. */
  ghost predicate UnmapsStruck(tree: seq<Node>, tree': seq<Node>, page: nat, pages: nat) {
    forall v: nat | v < PAGE_LIMIT :: View(tree', v) == if IsStruck(tree, page, pages, v) then Unmapped else View(tree, v)
  }

  lemma UnmappingStruck(tree: seq<Node>, page: nat, pages: nat)
    requires Shaped(tree, 0) && page < PAGE_LIMIT && !Unmapping(tree, page, pages).1.lost
    ensures UnmapsStruck(tree, Unmapping(tree, page, pages).0, page, pages)
  {
    hide UnmapFrom, View, IsStruck, Indices;
    forall v: nat | v < PAGE_LIMIT
      ensures View(Unmapping(tree, page, pages).0, v) == if IsStruck(tree, page, pages, v) then Unmapped else View(tree, v)
    {
      UnmapExact(tree, page, pages, v);
    }
  }

  /** What is left in a cache once the pages struck have been invalidated. */
  ghost function Unstruck(tlb: Cache, tree: seq<Node>, page: nat, pages: nat): Cache {
    map v | v in tlb && !IsStruck(tree, page, pages, v) :: tlb[v]
  }

  /** The number returned is that of the pages struck, and whole tables for absent entries stepped over. */
  ghost predicate CountsStruck(tree: seq<Node>, page: nat, pages: nat, unmapped: nat) {
    unmapped >= StruckTotal(tree, page, pages) && (unmapped - StruckTotal(tree, page, pages)) % PT_LENGTH == 0
  }

  /** The pages invalidated are the pages struck. */
  lemma UnmappingFlushed(tree: seq<Node>, tlb: Cache, page: nat, pages: nat)
    requires Shaped(tree, 0) && page < PAGE_LIMIT && !Unmapping(tree, page, pages).1.lost && Coherent(tree, tlb)
    ensures Forget(tlb, Unmapping(tree, page, pages).1.flushed) == Unstruck(tlb, tree, page, pages)
    ensures CountsStruck(tree, page, pages, Unmapping(tree, page, pages).1.done)
  {
    hide UnmapFrom, IsStruck, Indices, StruckTotal, FirstStruck, View;
    FlushedStruck(tree, page, pages);
    CountStruck(tree, page, pages);
  }

  /**
   * `vmk_unmap_pages`, for any tables and any run that stays inside the tree: which pages it clears, that it
   * invalidates exactly these, and that, whatever has been cached before, no stale translation is left behind.
   */
  method VmkUnmapPages(vm: PageTables, vaddr: nat, pages: nat) returns (unmapped: nat)
    requires vm.Valid() && Coherent(vm.tree, vm.tlb) && IsKernelAddress(vaddr) && PageOffset(vaddr) == 0
    requires pages > 0 && !Unmapping(vm.tree, PageOf(vaddr), pages).1.lost
    modifies vm
    ensures vm.Valid() && Coherent(vm.tree, vm.tlb) && vm.tlb == Unstruck(old(vm.tlb), old(vm.tree), PageOf(vaddr), pages)
    ensures vm.tree == Unmapping(old(vm.tree), PageOf(vaddr), pages).0
    ensures UnmapsStruck(old(vm.tree), vm.tree, PageOf(vaddr), pages)
    ensures unmapped == Unmapping(old(vm.tree), PageOf(vaddr), pages).1.done
    ensures CountsStruck(old(vm.tree), PageOf(vaddr), pages, unmapped)
  {
    var page := PageOf(vaddr);
    ghost var tree0, tlb0 := vm.tree, vm.tlb;
    ghost var run := UnmapRun(Indices(page), page, 0, [], false);
    ghost var (tree', goal) := Unmapping(tree0, page, pages);
    Shape(vm);
    UnmapCoherent(tree0, tlb0, page, pages);
    UnmappingStruck(tree0, page, pages);
    UnmappingFlushed(tree0, tlb0, page, pages);
    ReadyToUnmap(vm, run, tlb0);
    assert (tree', goal) == UnmapFrom(tree0, 0, run, pages);
    hide *;
    ghost var m0, tmp0 := vm.mem, vm.tmpPt;
    var idx', page';
    unmapped, idx', page' := vm.RecurseUnmap(Image(vm.kpml4), Indices(page), 0, page, pages, tree0, run, tree', goal, tlb0);
    FramesKept(vm);
    UnmapDone(vm, m0, tmp0, tree0, tree', goal, idx', page', unmapped, tlb0);
    vm.Replant(tree');
  }

  lemma ReadyToUnmap(vm: PageTables, run: UnmapRun, tlb0: Cache)
    requires vm.Valid() && tlb0 == vm.tlb && run.done == 0 && run.flushed == [] && !run.lost
    ensures vm.pm.Valid() && vm.Settled(Image(vm.kpml4), vm.tree, 0) && vm.UnmapIs(run, run.idx, run.page, 0, tlb0)
  {
  }

  lemma UnmapDone(vm: PageTables, m0: Memory, tmp0: Table, tree: seq<Node>, tree': seq<Node>, goal: UnmapRun,
                  idx: seq<nat>, page: nat, unmapped: nat, tlb0: Cache)
    requires vm.Reworked(m0, tmp0, Image(vm.kpml4), 0, tree, tree') && vm.UnmapIs(goal, idx, page, unmapped, tlb0)
    ensures vm.Settled(Image(vm.kpml4), tree', 0) && vm.tlb == Forget(tlb0, goal.flushed) && unmapped == goal.done
  {
  }

  /** A run within one leaf table: exactly its pages become untranslatable, at least as many are counted, and no more if the table exists. */
  lemma UnmappingOneTable(tree: seq<Node>, page: nat, pages: nat)
    requires Shaped(tree, 0) && OneTable(page, pages) && !View(tree, page).Outside?
    ensures var (tree', run') := Unmapping(tree, page, pages);
            && !run'.lost && UnmapsRange(tree, tree', page, pages) && run'.done >= pages
            && (HasLeafTable(tree, Indices(page), 0) ==> run'.done == pages)
  {
    UnmapsFlat(tree, page, pages, UnmapRun(Indices(page), page, 0, [], false));
  }

  // ---- Rights --------------------------------------------------------------------------------

  /** What re-flagging a run does, as a function on trees. */
  ghost function Flagging(tree: seq<Node>, page: nat, pages: nat, flags: Flags): (r: (seq<Node>, FlagRun)) {
    FlagFrom(tree, 0, Indices(page), Indices(page)[0], FlagRun(pages, false, false), flags)
  }

  /** All the pages that re-flagging a run visits are mapped. */
  ghost predicate AllVisited(tree: seq<Node>, page: nat, pages: nat) {
    VisitsMapped(tree, 0, Indices(page), Indices(page)[0], pages)
  }

  lemma FlaggingMissing(tree: seq<Node>, page: nat, pages: nat, flags: Flags)
    requires Shaped(tree, 0) && !Flagging(tree, page, pages, flags).1.lost
    ensures Flagging(tree, page, pages, flags).1.missing <==> !AllVisited(tree, page, pages)
  {
    hide FlagFrom, Indices, VisitsMapped;
    FlagMissingIff(tree, 0, Indices(page), Indices(page)[0], FlagRun(pages, false, false), flags);
  }

  /** The pages visited by a straight run are those of the range. */
  lemma VisitsRange(tree: seq<Node>, page: nat, pages: nat)
    requires StraightRange(page, pages)
    ensures AllVisited(tree, page, pages) <==> RangeMapped(tree, page, pages)
  {
    hide Slots, PathOf, StraightRange, Lookup;
    SlotsArePages(page, pages);
    var s := Slots(0, Indices(page), Indices(page)[0]);
    hide Indices;
    if AllVisited(tree, page, pages) {
      forall v | page <= v < page + pages ensures View(tree, v).Mapped? { assert s[v - page] == PathOf(page + (v - page)); }
    }
    if RangeMapped(tree, page, pages) {
      forall k | 0 <= k < pages ensures Lookup(tree, s[k]).Mapped? { assert View(tree, page + k).Mapped?; }
    }
  }

  /**
   * `vmk_flag_pages`, for any tables and any run that stays inside the tree: no translation changes, and a missing
   * mapping is reported exactly if one of the pages visited was unmapped.
   */
  method VmkFlagPages(vm: PageTables, vaddr: nat, pages: nat, flags: Flags) returns (res: Status)
    requires vm.Valid() && Coherent(vm.tree, vm.tlb) && IsKernelAddress(vaddr) && PageOffset(vaddr) == 0
    requires pages > 0 && !flags.user && !Flagging(vm.tree, PageOf(vaddr), pages, flags).1.lost
    modifies vm
    ensures vm.Valid() && Coherent(vm.tree, vm.tlb) && vm.tlb == old(vm.tlb)
    ensures vm.tree == Flagging(old(vm.tree), PageOf(vaddr), pages, flags).0
    ensures res == if AllVisited(old(vm.tree), PageOf(vaddr), pages) then SUCCESS else ENOMAP
  {
    var page := PageOf(vaddr);
    ghost var tree0 := vm.tree;
    Shape(vm);
    FlaggingMissing(tree0, page, pages, flags);
    ghost var run := FlagRun(pages, false, false);
    ghost var (tree', goal) := Flagging(tree0, page, pages, flags);
    FlagCoherent(tree0, vm.tlb, Indices(page), Indices(page)[0], run, flags);
    ReadyToFlag(vm);
    assert (tree', goal) == FlagFrom(tree0, 0, Indices(page), Indices(page)[0], run, flags);
    hide *;
    ghost var m0, tmp0 := vm.mem, vm.tmpPt;
    var pages';
    res, pages' := vm.RecurseFlag(Image(vm.kpml4), Indices(page), 0, pages, flags, tree0, run, tree', goal);
    FramesKept(vm);
    vm.ReworkedSettled(m0, tmp0, tree0, tree');
    vm.Replant(tree');
  }

  lemma ReadyToFlag(vm: PageTables)
    requires vm.Valid()
    ensures vm.pm.Valid() && vm.Settled(Image(vm.kpml4), vm.tree, 0)
  {
  }

  /** A run within one leaf table is re-flagged exactly if all its pages are mapped. */
  lemma FlaggingOneTable(tree: seq<Node>, page: nat, pages: nat, flags: Flags)
    requires Shaped(tree, 0) && OneTable(page, pages) && !View(tree, page).Outside?
    ensures var (tree', run') := Flagging(tree, page, pages, flags);
            && !run'.lost && (run'.missing <==> !RangeMapped(tree, page, pages))
            && (!run'.missing ==> FlagsRange(tree, tree', page, pages, flags))
  {
    assert Indices(page)[3] + pages <= PT_LENGTH;
    hide FlagFrom, Indices, FlagsRun, FlagsRange, RunMapped, RangeMapped;
    PathIs(page);
    FlagOneLeaf(tree, 0, Indices(page), FlagRun(pages, false, false), flags);
    MappedFlat(tree, page, pages);
    if RangeMapped(tree, page, pages) {
      FlagsFlat(tree, Flagging(tree, page, pages, flags).0, page, pages, flags);
    }
  }

  /** Re-flagging below the root's entry for the window gives that entry the rights asked for. */
  lemma FlaggingRoot(tree: seq<Node>, page: nat, pages: nat, flags: Flags)
    requires Shaped(tree, 0) && 0 < pages && Indices(page)[0] == RESERVED && tree[RESERVED].Branch?
    ensures var tree' := Flagging(tree, page, pages, flags).0;
            |tree'| == PT_LENGTH && tree'[RESERVED].Branch? && tree'[RESERVED].entry == Retag(tree[RESERVED].entry, flags)
  {
    var idx, run := Indices(page), FlagRun(pages, false, false);
    FlagFromStep(tree, 0, idx, RESERVED, run, flags);
    var (n, run1) := FlagEntry(tree[RESERVED], 0, idx, run, flags);
    FlagFromEnd(tree[RESERVED := n], 0, idx, RESERVED + 1, run1, flags);
    hide FlagFrom;
  }

  /** The root's entry for the window is the one in the tree; without the right to write there, no slot may be written under CR0.WP. */
  lemma RootEntry(vm: PageTables)
    requires vm.Valid()
    ensures |vm.tree| == PT_LENGTH && vm.kpml4 != vm.tmp
    ensures vm.tree[RESERVED].Branch? ==> Fetch(vm.Ram(), vm.kpml4)[RESERVED] == vm.tree[RESERVED].entry
    ensures vm.tree[RESERVED].Branch? && !vm.tree[RESERVED].entry.writable ==> !WayWritable(vm.Ram(), vm.kpml4, vm.spine1, vm.spine2)
  {
    assert Holds(vm.mem, vm.Spine(), Fetch(vm.mem, vm.kpml4)[RESERVED], vm.tree[RESERVED], 0);
  }

  // ---- Backing -------------------------------------------------------------------------------

  /** `vmk_set_backing`: the page gets another frame; as nothing is invalidated, the cache must not hold the old one. */
  method VmkSetBacking(vm: PageTables, vaddr: nat, frame: Frame) returns (res: Status)
    requires vm.Valid() && PageOffset(vaddr) == 0 && !View(vm.tree, PageOf(vaddr)).Outside?
    modifies vm
    ensures vm.Valid() && vm.tlb == old(vm.tlb)
    ensures res == if View(old(vm.tree), PageOf(vaddr)).Mapped? then SUCCESS else ENOMAP
    ensures vm.tree == Back(old(vm.tree), Indices(PageOf(vaddr)), 0, frame) && Tables(vm.tree) == Tables(old(vm.tree))
    ensures old(Coherent(vm.tree, vm.tlb)) ==>
              (Coherent(vm.tree, vm.tlb) <==> (PageOf(vaddr) in vm.tlb ==> vm.tlb[PageOf(vaddr)] == frame))
  {
    var page := PageOf(vaddr);
    ReadyToBack(vm, page, frame);
    hide *;
    res := BackAt(vm, page, frame, vm.tree, Back(vm.tree, Indices(page), 0, frame));
  }

  method BackAt(vm: PageTables, page: nat, frame: Frame, ghost tree: seq<Node>, ghost tree': seq<Node>) returns (res: Status)
    requires vm.tree == tree && tree' == Back(tree, Indices(page), 0, frame) && vm.pm.Valid() && vm.Settled(Image(vm.kpml4), vm.tree, 0)
    requires IsPath(PathFrom(Indices(page), 0), 4) && View(vm.tree, page) == Lookup(vm.tree, PathFrom(Indices(page), 0))
    requires !View(vm.tree, page).Outside?
    modifies vm
    ensures vm.Valid() && vm.tlb == old(vm.tlb)
    ensures res == if View(tree, page).Mapped? then SUCCESS else ENOMAP
    ensures vm.tree == tree' && Tables(tree') == Tables(tree)
  {
    hide *;
    ghost var m0, tmp0 := vm.mem, vm.tmpPt;
    res := vm.RecurseSetBacking(Image(vm.kpml4), Indices(page), 0, frame, tree);
    FramesKept(vm);
    vm.ReworkedSettled(m0, tmp0, tree, tree');
    vm.Replant(tree');
  }

  lemma ReadyToBack(vm: PageTables, page: nat, frame: Frame)
    requires vm.Valid() && page < PAGE_LIMIT && !View(vm.tree, page).Outside?
    ensures vm.pm.Valid() && vm.Settled(Image(vm.kpml4), vm.tree, 0)
    ensures IsPath(PathFrom(Indices(page), 0), 4) && View(vm.tree, page) == Lookup(vm.tree, PathFrom(Indices(page), 0))
    ensures Coherent(vm.tree, vm.tlb) ==>
              (Coherent(Back(vm.tree, Indices(page), 0, frame), vm.tlb) <==> (page in vm.tlb ==> vm.tlb[page] == frame))
  {
    hide Coherent, View, Back, Indices, PageTables.Settled;
    Shape(vm);
    if Coherent(vm.tree, vm.tlb) {
      BackCoherent(vm.tree, vm.tlb, page, frame);
    }
    PathIs(page);
    SeenAt(vm.tree, page);
  }

  lemma SeenAt(tree: seq<Node>, page: nat)
    ensures View(tree, page) == Lookup(tree, PathFrom(Indices(page), 0))
  {
    PathIs(page);
  }
}
