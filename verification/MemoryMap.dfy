/** Mapping fresh memory (`mm_map` in mm/mm.c): pages are reserved first and then backed one by one. */
module MemoryMap {
  import opened Status
  import opened FrameSet
  import opened Paging
  import opened PageTree
  import opened PageMap
  import opened PageFlag
  import opened PageUnmap
  import opened PageSearch
  import opened PageOrder
  import opened PageRuns
  import opened PageView
  import opened PageStraight
  import opened Tlb
  import opened PhysicalMemory
  import opened VirtualMemory
  import opened KernelSpace

  const NULL: nat := 0

  /** Page k of the range is backed by `frames[k]` with exactly the given rights; every other translation is as before. */
  ghost predicate BackedBy(tree: seq<Node>, tree': seq<Node>, page: nat, frames: seq<nat>, flags: Flags) {
    && (forall v: nat | v < PAGE_LIMIT ::
          View(tree', v) == if page <= v < page + |frames| then Mapped(SetPte(frames[v - page], flags)) else View(tree, v))
    && (forall v: nat | v < PAGE_LIMIT && page <= v < page + |frames| :: Rights(tree', v) == Granted(SetPte(frames[v - page], flags)))
  }

  /** The frames are different from each other, were free before and are locked now. */
  ghost predicate Fresh(locked: set<nat>, locked': set<nat>, frames: seq<nat>) {
    && locked <= locked'
    && (forall k | 0 <= k < |frames| :: frames[k] < FRAME_LIMIT && frames[k] !in locked && frames[k] in locked')
    && (forall j, k | 0 <= j < k < |frames| :: frames[j] != frames[k])
  }

  /** As long as only locked frames are mapped, a fresh frame is shared with no other page, and that stays so. */
  lemma NotShared(tree: seq<Node>, tree': seq<Node>, locked: set<nat>, locked': set<nat>, page: nat, frames: seq<nat>, flags: Flags)
    requires AllBacked(tree, locked) && BackedBy(tree, tree', page, frames, flags) && Fresh(locked, locked', frames)
    ensures AllBacked(tree', locked')
    ensures forall v: nat, w: nat | v < w < PAGE_LIMIT && (page <= v < page + |frames| || page <= w < page + |frames|) ::
              View(tree', v).Mapped? && View(tree', w).Mapped? ==> View(tree', v).entry.frame != View(tree', w).entry.frame
  {
    hide View, Rights;
    forall v: nat | v < PAGE_LIMIT && View(tree', v).Mapped?
      ensures View(tree', v).entry.frame in locked'
      ensures page <= v < page + |frames| ==> View(tree', v).entry.frame == frames[v - page]
      ensures !(page <= v < page + |frames|) ==> View(tree', v).entry.frame in locked
    {
      assert page <= v < page + |frames| ==> frames[v - page] in locked';
    }
  }

  // ---- The reservation -----------------------------------------------------------------------

  /** Reserved pages carry the frame numbers just below 2^52, cut to 40 bits. */
  function ReservedFrame(pages: nat): (r: nat)
    requires pages <= 0x10_0000_0000_0000
    ensures PAGE_SIZE * (r + pages) == 0x1_0000_0000_0000_0000
  {
    0x10_0000_0000_0000 - pages
  }

  // ---- Backing a range -----------------------------------------------------------------------

  /** What giving these frames to the pages from `page` on does, one after the other, as a function on trees. */
  ghost function Backing(tree: seq<Node>, page: nat, frames: seq<Frame>): (r: seq<Node>)
    decreases |frames|
  {
    if frames == [] then tree
    else
      var n := |frames| - 1;
      Back(Backing(tree, page, frames[..n]), Indices(page + n), 0, frames[n])
  }

  lemma BackingNext(tree: seq<Node>, page: nat, frames: seq<Frame>, f: Frame)
    ensures Backing(tree, page, frames + [f]) == Back(Backing(tree, page, frames), Indices(page + |frames|), 0, f)
  {
    assert (frames + [f])[..|frames|] == frames;
  }

  /** A mapped page with another frame and the rights it had. */
  function Rebacked(s: Seen, frame: Frame): Seen {
    match s
    case Mapped(e) => Mapped(e.(frame := frame))
    case _ => s
  }

  function ReachedAt(w: Walked, frame: Frame): Walked {
    match w
    case Reached(_, writable, user, noExecute) => Reached(frame, writable, user, noExecute)
    case Fault => Fault
  }

  /** Page k of the range gets frame k and keeps its rights; no other page is touched. */
  lemma {:induction false} BackingView(tree: seq<Node>, page: nat, frames: seq<Frame>, v: nat)
    requires Shaped(tree, 0) && page + |frames| <= PAGE_LIMIT && v < PAGE_LIMIT
    ensures var tree' := Backing(tree, page, frames);
            && Shaped(tree', 0)
            && View(tree', v) == (if page <= v < page + |frames| then Rebacked(View(tree, v), frames[v - page]) else View(tree, v))
            && Rights(tree', v) == (if page <= v < page + |frames| then ReachedAt(Rights(tree, v), frames[v - page]) else Rights(tree, v))
    decreases |frames|
  {
    hide View, Rights, Back, Indices;
    if frames != [] {
      var n := |frames| - 1;
      BackingView(tree, page, frames[..n], v);
      var tree1 := Backing(tree, page, frames[..n]);
      BackView(tree1, page + n, frames[n], v);
    }
  }

  /** After a reservation of the range, page by page, and the backing of it. */
  lemma ReservedBacked(tree: seq<Node>, tree1: seq<Node>, page: nat, pages: nat, frame: nat, flags: Flags, frames: seq<Frame>)
    requires MapsRange(tree, tree1, page, pages, frame, flags) && |frames| == pages && page + pages <= PAGE_LIMIT && Shaped(tree1, 0)
    ensures BackedBy(tree, Backing(tree1, page, frames), page, frames, flags)
  {
    hide View, Rights, Backing;
    var tree' := Backing(tree1, page, frames);
    forall v: nat | v < PAGE_LIMIT
      ensures View(tree', v) == if page <= v < page + |frames| then Mapped(SetPte(frames[v - page], flags)) else View(tree, v)
      ensures page <= v < page + |frames| ==> Rights(tree', v) == Granted(SetPte(frames[v - page], flags))
    {
      BackingView(tree1, page, frames, v);
    }
  }

  /** The cache stays coherent exactly if it holds no other frame for a page that is backed. */
  ghost predicate CachedAs(tlb: Cache, page: nat, frames: seq<Frame>) {
    forall v | v in tlb && page <= v < page + |frames| :: tlb[v] == frames[v - page]
  }

  lemma BackingCoherent(tree: seq<Node>, tlb: Cache, page: nat, frames: seq<Frame>)
    requires Shaped(tree, 0) && page + |frames| <= PAGE_LIMIT && Coherent(tree, tlb) && RangeMapped(tree, page, |frames|)
    ensures Coherent(Backing(tree, page, frames), tlb) <==> CachedAs(tlb, page, frames)
  {
    hide View, Rights, Backing;
    var tree' := Backing(tree, page, frames);
    forall v | v in tlb
      ensures v < PAGE_LIMIT
      ensures Agrees(View(tree', v), tlb[v]) <==> (page <= v < page + |frames| ==> tlb[v] == frames[v - page])
    {
      assert Agrees(View(tree, v), tlb[v]);
      BackingView(tree, page, frames, v);
    }
  }

  // ---- The call ------------------------------------------------------------------------------

  twostate lemma LocksGrown(vm: PageTables)
    requires old(vm.Valid()) && unchanged(vm) && vm.pm.Valid() && old(vm.pm.locked) <= vm.pm.locked
    ensures vm.Valid()
  {
    hide Tree, Tables, FrameAllocator.Valid, PageTables.WindowOk;
  }

  /** One turn of the loop: the lowest free frame becomes the page's backing, if it is mapped; otherwise the assertion stops the kernel. */
  method BackPage(vm: PageTables, vaddr: nat, ghost n: nat, ghost after: set<nat>) returns (halted: bool, ghost f: Frame)
    requires vm.Valid() && PageOffset(vaddr) == 0 && !View(vm.tree, PageOf(vaddr)).Outside?
    requires vm.pm.Affords(after) && n > 0 && after == Taking(vm.pm.locked, n)
    modifies vm, vm.pm, vm.pm.bitmap`unset, vm.pm.bitmap.bytes
    ensures vm.Valid() && vm.tlb == old(vm.tlb)
    ensures halted <==> !View(old(vm.tree), PageOf(vaddr)).Mapped?
    ensures vm.pm.Affords(after) && after == Taking(vm.pm.locked, n - 1)
    ensures f !in old(vm.pm.locked) && vm.pm.locked == old(vm.pm.locked) + {f}
    ensures vm.tree == Back(old(vm.tree), Indices(PageOf(vaddr)), 0, f) && Tables(vm.tree) == Tables(old(vm.tree))
  {
    hide *;
    var frame := RequestFrame(vm, n, after);
    f := frame;
    var res := VmkSetBacking(vm, vaddr, frame);
    halted := res != SUCCESS;
    BackingKnown(res);
  }

  lemma BackingKnown(res: Status)
    ensures SUCCESS != ENOMAP
  {
  }

  /** The frame requested in one turn. */
  method RequestFrame(vm: PageTables, ghost n: nat, ghost after: set<nat>) returns (f: Frame)
    requires vm.Valid() && vm.pm.Affords(after) && n > 0 && after == Taking(vm.pm.locked, n)
    modifies vm.pm, vm.pm.bitmap`unset, vm.pm.bitmap.bytes
    ensures vm.Valid() && vm.pm.Affords(after) && after == Taking(vm.pm.locked, n - 1)
    ensures f !in old(vm.pm.locked) && vm.pm.locked == old(vm.pm.locked) + {f}
  {
    hide Tree, Tables, PageTables.Settled, PageTables.WindowOk;
    var paddr := vm.pm.RequestWithin(after);
    LocksGrown(vm);
    f := paddr / PAGE_SIZE;
  }

  lemma FreshNext(locked: set<nat>, locked1: set<nat>, frames: seq<nat>, f: Frame)
    requires Fresh(locked, locked1, frames) && f !in locked1
    ensures Fresh(locked, locked1 + {f}, frames + [f])
  {
  }

  lemma FreshMore(locked: set<nat>, locked1: set<nat>, locked2: set<nat>, frames: seq<nat>)
    requires Fresh(locked, locked1, frames) && locked1 <= locked2
    ensures Fresh(locked, locked2, frames)
  {
  }

  lemma PageAfterPages(at: nat, k: nat, pages: nat)
    requires IsKernelAddress(at) && PageOffset(at) == 0 && PageOf(at) + pages <= PAGE_LIMIT && k < pages
    ensures PageOf(at + k * PAGE_SIZE) == PageOf(at) + k && PageOffset(at + k * PAGE_SIZE) == 0
  {
    assert k * PAGE_SIZE / PAGE_SIZE == k && k * PAGE_SIZE % PAGE_SIZE == 0;
    PageOn(at, k * PAGE_SIZE);
  }

  /** No page of the range lies outside the tree. */
  ghost predicate RangeInside(tree: seq<Node>, page: nat, pages: nat) {
    page + pages <= PAGE_LIMIT && forall v | page <= v < page + pages :: !View(tree, v).Outside?
  }

  /** How far the loop of `mm_map` gets: to the first page of the range that is not mapped. */
  ghost predicate BackedAsFar(tree: seq<Node>, page: nat, pages: nat, halted: bool, backed: nat) {
    && backed <= pages && RangeMapped(tree, page, backed)
    && if halted then backed < pages && !View(tree, page + backed).Mapped? else backed == pages
  }

  /** The loop of `mm_map`: every page of the range gets the frame that is lowest at its turn, up to the first that is not mapped. */
  method BackRange(vm: PageTables, hint: nat, pages: nat, ghost after: set<nat>) returns (halted: bool, ghost frames: seq<Frame>)
    requires vm.Valid() && IsKernelAddress(hint) && PageOffset(hint) == 0 && RangeInside(vm.tree, PageOf(hint), pages)
    requires vm.pm.Affords(after) && after == Taking(vm.pm.locked, pages)
    modifies vm, vm.pm, vm.pm.bitmap`unset, vm.pm.bitmap.bytes
    ensures vm.Valid() && vm.tlb == old(vm.tlb)
    ensures BackedAsFar(old(vm.tree), PageOf(hint), pages, halted, |frames|)
    ensures vm.tree == Backing(old(vm.tree), PageOf(hint), frames)
    ensures Fresh(old(vm.pm.locked), vm.pm.locked, frames) && Tables(vm.tree) == Tables(old(vm.tree))
  {
    hide Tree, Tables, PageOf, View, Indices, Back, Backing, Coherent, RangeMapped, Fresh;
    hide Taking, FrameAllocator.Affords, PageTables.Valid, PageOffset, IsKernelAddress;
    ghost var tree0, page, locked0 := vm.tree, PageOf(hint), vm.pm.locked;
    Shape(vm);
    frames := [];
    NoneBacked(tree0, page, locked0);
    var vaddr, left: nat := hint, pages;
    while left > 0
      invariant left <= pages && |frames| == pages - left && vaddr == hint + (pages - left) * PAGE_SIZE
      invariant vm.Valid() && vm.tlb == old(vm.tlb) && vm.tree == Backing(tree0, page, frames)
      invariant RangeMapped(tree0, page, |frames|) && Fresh(locked0, vm.pm.locked, frames)
      invariant vm.pm.Affords(after) && after == Taking(vm.pm.locked, left) && Tables(vm.tree) == Tables(tree0)
    {
      ghost var locked1 := vm.pm.locked;
      PageAfterPages(hint, pages - left, pages);
      NextUntouched(tree0, page, pages, frames);
      ghost var f;
      halted, f := BackPage(vm, vaddr, left, after);
      if halted {
        Stopped(tree0, page, frames, f, vm.tree, locked0, locked1, vm.pm.locked);
        return;
      }
      BackingNext(tree0, page, frames, f);
      FreshNext(locked0, locked1, frames, f);
      OneMoreMapped(tree0, page, |frames|);
      frames := frames + [f];
      vaddr, left := vaddr + PAGE_SIZE, left - 1;
    }
    halted := false;
  }

  lemma NoneBacked(tree: seq<Node>, page: nat, locked: set<nat>)
    ensures Backing(tree, page, []) == tree && RangeMapped(tree, page, 0) && Fresh(locked, locked, [])
  {
  }

  lemma OneMoreMapped(tree: seq<Node>, page: nat, n: nat)
    requires RangeMapped(tree, page, n) && View(tree, page + n).Mapped?
    ensures RangeMapped(tree, page, n + 1)
  {
    hide View;
  }

  lemma NextUntouched(tree: seq<Node>, page: nat, pages: nat, frames: seq<Frame>)
    requires Shaped(tree, 0) && RangeInside(tree, page, pages) && |frames| < pages
    ensures View(Backing(tree, page, frames), page + |frames|) == View(tree, page + |frames|) && !View(tree, page + |frames|).Outside?
  {
    hide View, Backing;
    BackingView(tree, page, frames, page + |frames|);
  }

  /** Backing an unmapped page changes no table; the frame that was to back it stays locked. */
  lemma Stopped(tree: seq<Node>, page: nat, frames: seq<Frame>, f: Frame, tree': seq<Node>, locked: set<nat>, locked1: set<nat>, locked2: set<nat>)
    requires Shaped(tree, 0) && page + |frames| < PAGE_LIMIT && !View(tree, page + |frames|).Mapped?
    requires tree' == Back(Backing(tree, page, frames), Indices(page + |frames|), 0, f)
    requires Fresh(locked, locked1, frames) && locked2 == locked1 + {f}
    ensures tree' == Backing(tree, page, frames) && Fresh(locked, locked2, frames)
  {
    var tree1, at := Backing(tree, page, frames), page + |frames|;
    BackingView(tree, page, frames, at);
    FreshMore(locked, locked1, locked2, frames);
    SeenAt(tree1, at);
    hide Backing, View, Indices, Fresh;
    BackNothing(tree1, Indices(at), 0, f);
  }

  lemma {:induction false} BackNothing(kids: seq<Node>, idx: seq<nat>, level: nat, f: Frame)
    requires level <= PT_LAST_LEVEL && |idx| == 4 && Shaped(kids, level) && !Lookup(kids, PathFrom(idx, level)).Mapped?
    ensures Back(kids, idx, level, f) == kids
    decreases PT_LAST_LEVEL - level
  {
    if idx[level] < |kids| {
      var n := kids[idx[level]];
      assert ShapedIn(n, level);
      assert PathFrom(idx, level) == At(idx[level], PathFrom(idx, level + 1));
      if n.Branch? {
        BackNothing(n.kids, idx, level + 1, f);
        assert kids[idx[level] := n] == kids;
      }
    }
  }

  // ---- What `mm_map` promises ----------------------------------------------------------------

  /** The frames the allocator will lock: for the tables first, then for the pages. */
  ghost function MmLocks(tree: seq<Node>, locked: set<nat>, page: nat, pages: nat, flags: Flags): set<nat>
    requires pages <= PAGE_LIMIT
  {
    if FitsAt(tree, page, pages) then Taking(Mapping(tree, locked, page, pages, ReservedFrame(pages), flags).1.locked, pages) else locked
  }

  /** A region may be tried: its pages and those the reservation visits stay inside the tree. A request that is not strict has to find room at once. */
  ghost predicate Region(tree: seq<Node>, locked: set<nat>, page: nat, pages: nat, flags: Flags) {
    RangeInside(tree, page, pages) && Prepared(tree, locked, page, pages, ReservedFrame(pages), flags, MmLocks(tree, locked, page, pages, flags))
  }

  /** What `mm_map` does, for any region: how far it gets, which pages it reserves and which ones it backs. */
  ghost predicate MmOutcome(tree: seq<Node>, tree': seq<Node>, locked: set<nat>, locked': set<nat>, at: nat, pages: nat, flags: Flags,
                            halted: bool, addr: nat, frames: seq<Frame>)
    requires pages <= PAGE_LIMIT
  {
    if PageOffset(at) != 0 then halted && tree' == tree && locked' == locked && frames == []
    else if !FitsAt(tree, PageOf(at), pages) then !halted && addr == NULL && tree' == tree && locked' == locked && frames == []
    else
      var (tree1, goal) := Mapping(tree, locked, PageOf(at), pages, ReservedFrame(pages), flags);
      && BackedAsFar(tree1, PageOf(at), pages, halted, |frames|) && (!halted ==> addr == at)
      && tree' == Backing(tree1, PageOf(at), frames)
      && locked <= goal.locked && Fresh(goal.locked, locked', frames) && (forall f | f in frames :: f !in Tables(tree'))
  }

  /** What `mm_map` is for. */
  ghost predicate MmMapped(tree: seq<Node>, tree': seq<Node>, locked: set<nat>, locked': set<nat>, at: nat, pages: nat, flags: Flags,
                           addr: nat, frames: seq<nat>) {
    if FitsAt(tree, PageOf(at), pages) then
      && addr == at && |frames| == pages && RangeFree(tree, PageOf(at), pages) && BackedBy(tree, tree', PageOf(at), frames, flags)
      && Fresh(locked, locked', frames) && (forall f | f in frames :: f !in Tables(tree'))
    else
      addr == NULL && tree' == tree && locked' == locked
  }

  /**
   * `mm_map`, for any region: NULL and nothing has changed exactly if there is no room. Otherwise its pages are backed in
   * turn; if one of them has not been mapped by then, the assertion stops the kernel. A region that is a straight run gets
   * what it asked for, and the cache stays coherent.
   */
  method MmMap(vm: PageTables, imageEnd: nat, hint: nat, size: nat, flags: Flags) returns (halted: bool, addr: nat, ghost frames: seq<Frame>)
    requires vm.Valid() && Coherent(vm.tree, vm.tlb)
    requires IsKernelAddress(if hint == 0 then imageEnd else hint) && PageCount(size) <= PAGE_LIMIT
    requires Region(vm.tree, vm.pm.locked, PageOf(if hint == 0 then imageEnd else hint), PageCount(size), flags)
    requires vm.pm.Affords(MmLocks(vm.tree, vm.pm.locked, PageOf(if hint == 0 then imageEnd else hint), PageCount(size), flags))
    modifies vm, vm.pm, vm.pm.bitmap`unset, vm.pm.bitmap.bytes
    ensures vm.Valid() && vm.tlb == old(vm.tlb)
    ensures MmOutcome(old(vm.tree), vm.tree, old(vm.pm.locked), vm.pm.locked, if hint == 0 then imageEnd else hint, PageCount(size),
                      flags, halted, addr, frames)
    ensures Coherent(vm.tree, vm.tlb) <==> CachedAs(vm.tlb, PageOf(if hint == 0 then imageEnd else hint), frames)
    ensures !halted && addr == NULL ==> vm.mem == old(vm.mem)
  {
    var pages := PageCount(size);
    ghost var at := if hint == 0 then imageEnd else hint;
    ghost var tree0, tlb0, locked0, page := vm.tree, vm.tlb, vm.pm.locked, PageOf(at);
    ghost var after := MmLocks(tree0, locked0, page, pages, flags);
    Shape(vm);
    var frame := ReservedFrame(pages);
    NotNull(at);
    assert CachedAs(tlb0, page, []);
    hide *;
    var res;
    halted, res, addr := VmkMapPages(vm, imageEnd, frame, pages, hint, flags, after);
    frames := [];
    if halted {
      Unaligned(tree0, locked0, at, pages, flags, addr);
      return;
    }
    Reserved(tree0, vm.tree, locked0, vm.pm.locked, at, pages, flags, res, addr);
    if IsError(res) {
      return false, NULL, [];
    }
    ghost var tree1, locked1 := vm.tree, vm.pm.locked;
    Shape(vm);
    TablesLocked(vm);
    halted, frames := BackRange(vm, addr, pages, after);
    Succeeded(tree0, tree1, vm.tree, locked0, locked1, vm.pm.locked, at, pages, flags, halted, addr, frames);
    BackingCoherent(tree1, tlb0, page, frames);
  }

  lemma NotNull(at: nat)
    requires IsKernelAddress(at)
    ensures at != NULL
  {
  }

  lemma Unaligned(tree: seq<Node>, locked: set<nat>, at: nat, pages: nat, flags: Flags, addr: nat)
    requires PageOffset(at) != 0 && pages <= PAGE_LIMIT
    ensures MmOutcome(tree, tree, locked, locked, at, pages, flags, true, addr, [])
  {
  }

  /** The tree after the reservation: what is outside it was so before. */
  lemma StaysInside(tree: seq<Node>, locked: set<nat>, page: nat, pages: nat, flags: Flags)
    requires Shaped(tree, 0) && pages <= PAGE_LIMIT && Region(tree, locked, page, pages, flags) && FitsAt(tree, page, pages)
    ensures RangeInside(Mapping(tree, locked, page, pages, ReservedFrame(pages), flags).0, page, pages)
    ensures locked <= Mapping(tree, locked, page, pages, ReservedFrame(pages), flags).1.locked
  {
    hide MapFrom, FitsAt, View, Indices;
    MapKeeps(tree, 0, Indices(page), Indices(page)[0], Run(locked, ReservedFrame(pages), pages, false), flags);
    forall v | page <= v < page + pages
      ensures !View(Mapping(tree, locked, page, pages, ReservedFrame(pages), flags).0, v).Outside?
    {
      MappedOrKept(tree, locked, page, pages, ReservedFrame(pages), flags, v);
    }
  }

  lemma Reserved(tree: seq<Node>, tree': seq<Node>, locked: set<nat>, locked': set<nat>, at: nat, pages: nat, flags: Flags,
                 res: Status, addr: nat)
    requires Shaped(tree, 0) && pages <= PAGE_LIMIT && Region(tree, locked, PageOf(at), pages, flags) && PageOffset(at) == 0
    requires MapOutcome(tree, tree', locked, locked', PageOf(at), pages, ReservedFrame(pages), flags, at, res, addr)
    ensures if IsError(res) then tree' == tree && MmOutcome(tree, tree, locked, locked', at, pages, flags, false, NULL, [])
            else
              && FitsAt(tree, PageOf(at), pages) && addr == at && locked <= locked' && RangeInside(tree', PageOf(at), pages)
              && (tree', locked') == (Mapping(tree, locked, PageOf(at), pages, ReservedFrame(pages), flags).0,
                                      Mapping(tree, locked, PageOf(at), pages, ReservedFrame(pages), flags).1.locked)
              && MmLocks(tree, locked, PageOf(at), pages, flags) == Taking(locked', pages)
  {
    hide Mapping, FitsAt, View, Tables, Taking, Prepared, RangeInside;
    if FitsAt(tree, PageOf(at), pages) {
      StaysInside(tree, locked, PageOf(at), pages, flags);
    }
  }

  lemma TablesLocked(vm: PageTables)
    requires vm.Valid()
    ensures Tables(vm.tree) <= vm.pm.locked
  {
  }

  lemma Succeeded(tree: seq<Node>, tree1: seq<Node>, tree2: seq<Node>, locked: set<nat>, locked1: set<nat>, locked2: set<nat>,
                  at: nat, pages: nat, flags: Flags, halted: bool, addr: nat, frames: seq<Frame>)
    requires pages <= PAGE_LIMIT && PageOffset(at) == 0 && FitsAt(tree, PageOf(at), pages) && addr == at && locked <= locked1
    requires (tree1, locked1) == (Mapping(tree, locked, PageOf(at), pages, ReservedFrame(pages), flags).0,
                                  Mapping(tree, locked, PageOf(at), pages, ReservedFrame(pages), flags).1.locked)
    requires BackedAsFar(tree1, PageOf(at), pages, halted, |frames|) && RangeInside(tree1, PageOf(at), pages)
    requires tree2 == Backing(tree1, PageOf(at), frames) && Fresh(locked1, locked2, frames)
    requires Tables(tree1) <= locked1 && Tables(tree2) == Tables(tree1)
    ensures MmOutcome(tree, tree2, locked, locked2, at, pages, flags, halted, addr, frames)
    ensures RangeMapped(tree1, PageOf(at), |frames|) && PageOf(at) + |frames| <= PAGE_LIMIT
  {
    hide Mapping, FitsAt, RangeMapped, Backing, Tables;
  }

  // ---- Straight regions and others -----------------------------------------------------------

  /** A straight region gets what it asked for: either nothing has happened, or every page has a frame of its own that was free before. */
  lemma MmStraight(tree: seq<Node>, tree': seq<Node>, locked: set<nat>, locked': set<nat>, tlb: Cache, at: nat, pages: nat, flags: Flags,
                   halted: bool, addr: nat, frames: seq<Frame>)
    requires Shaped(tree, 0) && Coherent(tree, tlb) && PageOffset(at) == 0 && StraightRange(PageOf(at), pages) && pages <= PAGE_LIMIT
    requires MmOutcome(tree, tree', locked, locked', at, pages, flags, halted, addr, frames)
    ensures !halted && MmMapped(tree, tree', locked, locked', at, pages, flags, addr, frames) && CachedAs(tlb, PageOf(at), frames)
  {
    hide Mapping, FitsAt, MapsRange, RangeFree, View, Tables, Backing, BackedBy, PageOf, StraightRange;
    var page, frame := PageOf(at), ReservedFrame(pages);
    if FitsAt(tree, page, pages) {
      MappingStraight(tree, locked, page, pages, frame, flags);
      var tree1 := Mapping(tree, locked, page, pages, frame, flags).0;
      StraightMapped(tree, tree1, page, pages, frame, flags);
      MappingShaped(tree, locked, page, pages, frame, flags);
      ReservedBacked(tree, tree1, page, pages, frame, flags, frames);
      FreeUncached(tree, tlb, page, pages, frames);
    }
  }

  lemma MappingShaped(tree: seq<Node>, locked: set<nat>, page: nat, pages: nat, frame: nat, flags: Flags)
    requires Shaped(tree, 0)
    ensures Shaped(Mapping(tree, locked, page, pages, frame, flags).0, 0)
  {
    hide MapFrom, Indices;
    MapShaped(tree, 0, Indices(page), Indices(page)[0], Run(locked, frame, pages, false), flags);
  }

  lemma StraightMapped(tree: seq<Node>, tree': seq<Node>, page: nat, pages: nat, frame: nat, flags: Flags)
    requires StraightRange(page, pages) && MapsRange(tree, tree', page, pages, frame, flags)
    ensures RangeMapped(tree', page, pages) && page + pages <= PAGE_LIMIT
  {
    hide View, Rights, Indices;
  }

  lemma FreeUncached(tree: seq<Node>, tlb: Cache, page: nat, pages: nat, frames: seq<Frame>)
    requires Coherent(tree, tlb) && RangeFree(tree, page, pages) && |frames| <= pages
    ensures CachedAs(tlb, page, frames)
  {
    hide View;
    forall v | v in tlb
      ensures View(tree, v) != Unmapped
    {
      assert Agrees(View(tree, v), tlb[v]);
    }
  }

  /**
   * For a region with room whose reservation fills all its pages: `mm_map` does what it is for if and only if the region is
   * straight, and if and only if it leaves every page outside the region alone.
   */
  lemma MmStraightIff(tree: seq<Node>, tree': seq<Node>, locked: set<nat>, locked': set<nat>, at: nat, pages: nat, flags: Flags,
                      halted: bool, addr: nat, frames: seq<Frame>)
    requires Shaped(tree, 0) && PageOffset(at) == 0 && pages <= PAGE_LIMIT && Region(tree, locked, PageOf(at), pages, flags)
    requires FitsAt(tree, PageOf(at), pages) && Mapping(tree, locked, PageOf(at), pages, ReservedFrame(pages), flags).1.pages == 0
    requires MmOutcome(tree, tree', locked, locked', at, pages, flags, halted, addr, frames)
    ensures MmMapped(tree, tree', locked, locked', at, pages, flags, addr, frames) <==> StraightRange(PageOf(at), pages)
    ensures KeepsOthers(tree, tree', PageOf(at), pages) <==> StraightRange(PageOf(at), pages)
  {
    hide Mapping, FitsAt, MapsRange, View, Rights, Tables, Backing, PageOf, StraightRange, MmLocks, RangeMapped;
    var page, frame := PageOf(at), ReservedFrame(pages);
    var tree1 := Mapping(tree, locked, page, pages, frame, flags).0;
    MappingStraightIff(tree, locked, page, pages, frame, flags);
    MappingShaped(tree, locked, page, pages, frame, flags);
    OthersUntouched(tree, tree1, page, pages, frames);
    if StraightRange(page, pages) {
      NoCache(tree);
      MmStraight(tree, tree', locked, locked', map[], at, pages, flags, halted, addr, frames);
    }
  }

  lemma NoCache(tree: seq<Node>)
    ensures Coherent(tree, map[])
  {
  }

  lemma OthersUntouched(tree: seq<Node>, tree1: seq<Node>, page: nat, pages: nat, frames: seq<Frame>)
    requires Shaped(tree1, 0) && |frames| <= pages && page + pages <= PAGE_LIMIT
    ensures KeepsOthers(tree, Backing(tree1, page, frames), page, pages) <==> KeepsOthers(tree, tree1, page, pages)
  {
    hide View, Backing;
    forall v: nat | v < PAGE_LIMIT && !(page <= v < page + pages)
      ensures View(Backing(tree1, page, frames), v) == View(tree1, v)
    {
      BackingView(tree1, page, frames, v);
    }
  }

  /** The page has lost its frame: with the rights its entry had, it leads to a frame that was free. */
  ghost predicate Replaced(tree: seq<Node>, tree': seq<Node>, locked: set<nat>, v: nat, frame: Frame) {
    View(tree, v).Mapped? && View(tree', v) == Mapped(View(tree, v).entry.(frame := frame)) && frame !in locked
  }

  /** That happens to every page of the region that was mapped before. */
  lemma MmReplaces(tree: seq<Node>, tree': seq<Node>, locked: set<nat>, locked': set<nat>, at: nat, pages: nat, flags: Flags,
                   halted: bool, addr: nat, frames: seq<Frame>, v: nat)
    requires Shaped(tree, 0) && PageOffset(at) == 0 && pages <= PAGE_LIMIT && Region(tree, locked, PageOf(at), pages, flags)
    requires FitsAt(tree, PageOf(at), pages) && MmOutcome(tree, tree', locked, locked', at, pages, flags, halted, addr, frames)
    requires PageOf(at) <= v < PageOf(at) + |frames| && View(tree, v).Mapped?
    ensures Replaced(tree, tree', locked, v, frames[v - PageOf(at)])
  {
    hide FitsAt, View, Tables, Backing, PageOf, RangeMapped, MapFrom, MmLocks;
    var page, frame := PageOf(at), ReservedFrame(pages);
    MappedOrKept(tree, locked, page, pages, frame, flags, v);
    MappingShaped(tree, locked, page, pages, frame, flags);
    BackingView(Mapping(tree, locked, page, pages, frame, flags).0, page, frames, v);
  }

  lemma OneTableInside(tree: seq<Node>, page: nat, pages: nat)
    requires Shaped(tree, 0) && OneTable(page, pages) && !View(tree, page).Outside?
    ensures RangeInside(tree, page, pages)
  {
    hide Lookup, Indices;
    TableEnds(page, pages);
    PathIs(page);
    forall v | page <= v < page + pages
      ensures !View(tree, v).Outside?
    {
      SamePageTable(page, pages, v);
      RunPages(page, pages, v);
      TableInside(tree, 0, Indices(page), PathOf(v));
    }
  }

  /** A region within one leaf table: there is room exactly if it is free, and three frames more than pages are enough. */
  lemma RegionOneTable(vm: PageTables, page: nat, pages: nat, flags: Flags)
    requires vm.Valid() && OneTable(page, pages) && !View(vm.tree, page).Outside? && !flags.user
    requires vm.pm.Roomy(PT_LAST_LEVEL + pages)
    ensures pages <= PAGE_LIMIT && (FitsAt(vm.tree, page, pages) <==> RangeFree(vm.tree, page, pages))
    ensures flags.strict ==> Region(vm.tree, vm.pm.locked, page, pages, flags)
    ensures vm.pm.Affords(MmLocks(vm.tree, vm.pm.locked, page, pages, flags))
  {
    hide Mapping, FitsAt, RangeFree, View, StraightRange;
    Shape(vm);
    MappingOneTable(vm.tree, vm.pm.locked, page, pages, ReservedFrame(pages), flags);
    OneTableInside(vm.tree, page, pages);
    if FitsAt(vm.tree, page, pages) {
      MappingStraight(vm.tree, vm.pm.locked, page, pages, ReservedFrame(pages), flags);
      RoomyToMap(vm, page, pages, ReservedFrame(pages), flags, pages);
    } else {
      vm.pm.RoomyAffords(PT_LAST_LEVEL + pages, vm.pm.locked);
    }
  }

  // ---- A region that is not straight ---------------------------------------------------------

  /** The leaf table of the page does not exist, but the tables above it do. */
  predicate OnlyLeafTableAbsent(tree: seq<Node>, page: nat) {
    var i := Indices(page);
    |tree| == PT_LENGTH && tree[i[0]].Branch? &&
    var pdp := tree[i[0]].kids;
    |pdp| == PT_LENGTH && pdp[i[1]].Branch? &&
    var pd := pdp[i[1]].kids;
    |pd| == PT_LENGTH && pd[i[2]].Hole?
  }

  predicate IsSecondOfTable(page: nat) {
    page % PT_LENGTH == 1
  }

  /** Then all its pages are free, and a table's worth of pages is thought to fit anywhere in it. */
  lemma AbsentTable(tree: seq<Node>, page: nat, v: nat)
    requires OnlyLeafTableAbsent(tree, page) && page < PAGE_LIMIT && v < PAGE_LIMIT
    ensures v / PT_LENGTH == page / PT_LENGTH ==> View(tree, v) == Unmapped
    ensures FitsAt(tree, page, PT_LENGTH)
  {
    var i := Indices(page);
    TableFits(tree[i[0]].kids[i[1]].kids, i);
    assert Fits(tree[i[0]].kids, 1, i, PT_LENGTH);
    if v / PT_LENGTH == page / PT_LENGTH {
      SameTable(page, v);
      var j := Indices(v);
      assert forall k | 0 <= k < 3 :: j[k] == j[..3][k] == i[..3][k] == i[k];
      AbsentLookup(tree, j[0], j[1], j[2], At(j[3], End));
    }
  }

  lemma TableFits(pd: seq<Node>, idx: seq<nat>)
    requires |idx| == 4 && idx[2] < |pd| == PT_LENGTH && pd[idx[2]].Hole?
    ensures Fits(pd, 2, idx, PT_LENGTH)
  {
    assert PagesPerEntry(2) == PT_LENGTH;
    assert Room(pd, idx[2] + 1, 0, PT_LENGTH);
  }

  lemma AbsentLookup(tree: seq<Node>, a: nat, b: nat, c: nat, p: Path)
    requires a < |tree| && tree[a].Branch? && b < |tree[a].kids| && tree[a].kids[b].Branch?
    requires c < |tree[a].kids[b].kids| && tree[a].kids[b].kids[c].Hole?
    ensures Lookup(tree, At(a, At(b, At(c, p)))) == Unmapped
  {
    var pdp := tree[a].kids;
    var pd := pdp[b].kids;
    assert Lookup(pd, At(c, p)) == LookupIn(pd[c], p) == Unmapped;
    assert Lookup(pdp, At(b, At(c, p))) == LookupIn(pdp[b], At(c, p)) == Unmapped;
  }

  /**
   * From the second page of an absent leaf table on, 512 pages, the last of which is the first page of the next table and is
   * mapped already: `mm_map` finds room, succeeds, and has replaced the frame of that page.
   */
  lemma CrossingReplaces(tree: seq<Node>, tree': seq<Node>, locked: set<nat>, locked': set<nat>, at: nat, page: nat, flags: Flags,
                         halted: bool, addr: nat, frames: seq<Frame>)
    requires Shaped(tree, 0) && PageOffset(at) == 0 && page == PageOf(at) && IsSecondOfTable(page) && OnlyLeafTableAbsent(tree, page)
    requires Region(tree, locked, page, PT_LENGTH, flags) && View(tree, page + 511).Mapped?
    requires MmOutcome(tree, tree', locked, locked', at, PT_LENGTH, flags, halted, addr, frames)
    ensures !StraightRange(page, PT_LENGTH) && !halted && addr == at && |frames| == PT_LENGTH
    ensures Replaced(tree, tree', locked, page + 511, frames[511])
  {
    hide Region, MmOutcome, PageOf, Shaped, View, OnlyLeafTableAbsent, StraightRange, PageOffset, Replaced;
    RegionParts(tree, locked, page, PT_LENGTH, flags);
    RestFree(tree, page);
    NotStraight(tree, locked, page, flags);
    CrossingBacked(tree, tree', locked, locked', at, page, flags, halted, addr, frames);
    MmReplaces(tree, tree', locked, locked', at, PT_LENGTH, flags, halted, addr, frames, page + 511);
  }

  lemma CrossingBacked(tree: seq<Node>, tree': seq<Node>, locked: set<nat>, locked': set<nat>, at: nat, page: nat, flags: Flags,
                       halted: bool, addr: nat, frames: seq<Frame>)
    requires Shaped(tree, 0) && PageOffset(at) == 0 && page == PageOf(at) && IsSecondOfTable(page) && page + PT_LENGTH <= PAGE_LIMIT
    requires FitsAt(tree, page, PT_LENGTH) && RangeFree(tree, page, 511) && View(tree, page + 511).Mapped?
    requires !Mapping(tree, locked, page, PT_LENGTH, ReservedFrame(PT_LENGTH), flags).1.lost
    requires MmOutcome(tree, tree', locked, locked', at, PT_LENGTH, flags, halted, addr, frames)
    ensures !halted && addr == at && |frames| == PT_LENGTH
  {
    assert PT_LENGTH == 512 <= PAGE_LIMIT && PT_LAST_LEVEL == 3;
    hide *;
    OutcomeParts(tree, tree', locked, locked', at, PT_LENGTH, flags, halted, addr, frames);
    CrossingFilled(tree, locked, page, flags);
    AllBackedThen(Mapping(tree, locked, page, PT_LENGTH, ReservedFrame(PT_LENGTH), flags).0, page, PT_LENGTH, halted, |frames|);
  }

  lemma RegionParts(tree: seq<Node>, locked: set<nat>, page: nat, pages: nat, flags: Flags)
    requires pages <= PAGE_LIMIT && Region(tree, locked, page, pages, flags)
    ensures page + pages <= PAGE_LIMIT
    ensures FitsAt(tree, page, pages) ==> !Mapping(tree, locked, page, pages, ReservedFrame(pages), flags).1.lost
  {
    hide Mapping, FitsAt, View, Taking;
  }

  lemma OutcomeParts(tree: seq<Node>, tree': seq<Node>, locked: set<nat>, locked': set<nat>, at: nat, pages: nat, flags: Flags,
                     halted: bool, addr: nat, frames: seq<Frame>)
    requires pages <= PAGE_LIMIT && PageOffset(at) == 0 && FitsAt(tree, PageOf(at), pages)
    requires MmOutcome(tree, tree', locked, locked', at, pages, flags, halted, addr, frames)
    ensures BackedAsFar(Mapping(tree, locked, PageOf(at), pages, ReservedFrame(pages), flags).0, PageOf(at), pages, halted, |frames|)
    ensures !halted ==> addr == at
  {
    hide Mapping, FitsAt, Backing, Fresh, Tables, BackedAsFar;
  }

  lemma RestFree(tree: seq<Node>, page: nat)
    requires OnlyLeafTableAbsent(tree, page) && IsSecondOfTable(page) && page + PT_LENGTH <= PAGE_LIMIT
    ensures RangeFree(tree, page, 511) && FitsAt(tree, page, PT_LENGTH)
  {
    hide OnlyLeafTableAbsent, View;
    forall v | page <= v < page + 511
      ensures View(tree, v) == Unmapped
    {
      assert v / PT_LENGTH == page / PT_LENGTH;
      AbsentTable(tree, page, v);
    }
    AbsentTable(tree, page, page);
  }

  lemma NotStraight(tree: seq<Node>, locked: set<nat>, page: nat, flags: Flags)
    requires Shaped(tree, 0) && FitsAt(tree, page, PT_LENGTH) && View(tree, page + 511).Mapped?
    ensures !StraightRange(page, PT_LENGTH)
  {
    hide View, Mapping, FitsAt, StraightRange, RangeFree;
    if StraightRange(page, PT_LENGTH) {
      MappingStraight(tree, locked, page, PT_LENGTH, ReservedFrame(PT_LENGTH), flags);
      FreeHere(tree, page, PT_LENGTH, page + 511);
      assert false;
    }
  }

  lemma FreeHere(tree: seq<Node>, page: nat, pages: nat, v: nat)
    requires RangeFree(tree, page, pages) && page <= v < page + pages
    ensures View(tree, v) == Unmapped
  {
  }

  lemma AllBackedThen(tree: seq<Node>, page: nat, pages: nat, halted: bool, backed: nat)
    requires BackedAsFar(tree, page, pages, halted, backed) && RangeMapped(tree, page, pages)
    ensures !halted && backed == pages
  {
    hide View;
  }

  /** The reservation fills the rest of the absent table; the page after it was mapped and stays so. */
  lemma CrossingFilled(tree: seq<Node>, locked: set<nat>, page: nat, flags: Flags)
    requires Shaped(tree, 0) && IsSecondOfTable(page) && page + PT_LENGTH <= PAGE_LIMIT && View(tree, page + 511).Mapped?
    requires RangeFree(tree, page, 511)
    requires !Mapping(tree, locked, page, PT_LENGTH, ReservedFrame(PT_LENGTH), flags).1.lost
    ensures RangeMapped(Mapping(tree, locked, page, PT_LENGTH, ReservedFrame(PT_LENGTH), flags).0, page, PT_LENGTH)
  {
    var frame := ReservedFrame(PT_LENGTH);
    OneTableStraight(page, 511);
    hide View, MapFrom, StraightRange, Indices;
    var tree1 := Mapping(tree, locked, page, PT_LENGTH, frame, flags).0;
    forall v | page <= v < page + PT_LENGTH
      ensures View(tree1, v).Mapped?
    {
      if v < page + 511 {
        FirstFilled(tree, locked, page, 511, PT_LENGTH, frame, flags, v - page);
        assert page + (v - page) == v;
      } else {
        MappedOrKept(tree, locked, page, PT_LENGTH, frame, flags, v);
      }
    }
  }

  /** Tables in which the first page of a leaf table is mapped, and nothing else. */
  function SuchTables(e: Pte, above: Pte): seq<Node> {
    NoKids()[256 := Branch(above, NoKids()[0 := Branch(above, NoKids()[1 := Branch(above, NoKids()[0 := Leaf(e)])])])]
  }

  lemma SuchLookup(e: Pte, above: Pte, p: Path)
    requires IsPath(p, 4)
    ensures Lookup(SuchTables(e, above), p) == if p == At(256, At(0, At(1, At(0, End)))) then Mapped(e) else Unmapped
  {
    var tree := SuchTables(e, above);
    var p1 := p.rest;
    assert IsPath(p1, 3);
    var p2 := p1.rest;
    assert IsPath(p2, 2);
    var p3 := p2.rest;
    assert IsPath(p3, 1) && IsPath(p3.rest, 0);
    assert Lookup(tree, p) == LookupIn(tree[p.index], p1);
    if p.index == 256 {
      var pdp := tree[256].kids;
      assert Lookup(pdp, p1) == LookupIn(pdp[p1.index], p2);
      if p1.index == 0 {
        var pd := pdp[0].kids;
        assert Lookup(pd, p2) == LookupIn(pd[p2.index], p3);
        if p2.index == 1 {
          var pt := pd[1].kids;
          assert Lookup(pt, p3) == LookupIn(pt[p3.index], End);
        }
      }
    }
  }

  /** They meet all of this at the second page of the heap. */
  lemma SuchARegion(e: Pte, above: Pte, locked: set<nat>, writable: bool, executable: bool)
    ensures var tree, at := SuchTables(e, above), KERNEL_START + PAGE_SIZE;
            && Shaped(tree, 0) && IsKernelAddress(at) && PageOffset(at) == 0 && IsSecondOfTable(PageOf(at))
            && OnlyLeafTableAbsent(tree, PageOf(at)) && View(tree, PageOf(at) + 511) == Mapped(e)
            && Region(tree, locked, PageOf(at), PT_LENGTH, Flags(true, false, writable, executable))
  {
    var tree, at, page := SuchTables(e, above), KERNEL_START + PAGE_SIZE, 256 * 0x800_0000 + 1;
    assert PageOf(at) == page;
    SuchShaped(e, above);
    forall v: nat | v < PAGE_LIMIT
      ensures View(tree, v) == if PathOf(v) == At(256, At(0, At(1, At(0, End)))) then Mapped(e) else Unmapped
    {
      PathIs(v);
      SuchLookup(e, above, PathOf(v));
    }
    assert PathOf(page + 511) == At(256, At(0, At(1, At(0, End))));
    assert Indices(page) == [256, 0, 0, 1];
    assert OnlyLeafTableAbsent(tree, page);
    hide View, PathOf, SuchTables;
    SuchNotLost(e, above, page, Run(locked, ReservedFrame(PT_LENGTH), PT_LENGTH, false), Flags(true, false, writable, executable));
    hide MapFrom, FitsAt, Indices, Taking;
    assert RangeInside(tree, page, PT_LENGTH);
  }

  lemma SuchShaped(e: Pte, above: Pte)
    ensures Shaped(SuchTables(e, above), 0)
  {
    var pt := NoKids()[0 := Leaf(e)];
    var pd := NoKids()[1 := Branch(above, pt)];
    var pdp := NoKids()[0 := Branch(above, pd)];
    assert Shaped(pt, 3);
    assert Shaped(pd, 2);
    assert Shaped(pdp, 1);
  }

  lemma SuchNotLost(e: Pte, above: Pte, page: nat, run: Run, flags: Flags)
    requires Indices(page) == [256, 0, 0, 1] && !run.lost
    ensures !MapFrom(SuchTables(e, above), 0, Indices(page), Indices(page)[0], run, flags).1.lost
  {
    var tree, idx := SuchTables(e, above), Indices(page);
    SuchShaped(e, above);
    hide SuchTables, MapFrom, Vacant, Lookup;
    var s := Slots(0, idx, 256);
    BlankShaped(0);
    forall k | 0 <= k < |s|
      ensures Lookup(tree, s[k]) == Unmapped
    {
      assert s[k] in s;
      VacantExact(NoKids(), 0, idx, 256, s[k]);
      SlotsFrom(idx, 256, s[k]);
      SuchLookup(e, above, s[k]);
    }
    NotLost(tree, 0, idx, 256, run, flags);
  }

  lemma SlotsFrom(idx: seq<nat>, i: nat, p: Path)
    requires |idx| == 4 && idx[3] > 0 && IsPath(p, 4) && AtLeast(p.rest, idx, 1)
    ensures p != At(i, At(0, At(1, At(0, End))))
  {
    assert !AtLeast(At(0, End), idx, 3);
    assert !AtLeast(At(1, At(0, End)), idx, 2);
    assert !AtLeast(At(0, At(1, At(0, End))), idx, 1);
  }
}
