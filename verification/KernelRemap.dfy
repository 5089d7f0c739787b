/** Protecting the kernel image (`kernel_remap` in kernel.c): an ordered sequence of permission changes. */
module KernelRemap {
  import opened Machine
  import opened Status
  import opened Paging
  import opened PageTree
  import opened PageRuns
  import opened PageView
  import opened PageStraight
  import opened Tlb
  import opened PhysicalMemory
  import opened VirtualMemory
  import opened KernelSpace

  /** The addresses the linker script provides; the entry section runs from the image's start to the text. */
  datatype Layout = Layout(start: nat, textStart: nat, textEnd: nat, rodataStart: nat, rodataEnd: nat, dataStart: nat, dataEnd: nat)

  const READ_WRITE := Flags(false, false, true, false)
  const READ_EXECUTE := Flags(false, false, false, true)
  const READ_ONLY := Flags(false, false, false, false)

  /** Sections are not empty, begin at page boundaries and share no page; the image fits into one leaf table. */
  ghost predicate WellLaid(l: Layout) {
    && IsKernelAddress(l.start) && l.start < l.textStart < l.textEnd <= l.rodataStart < l.rodataEnd <= l.dataStart < l.dataEnd
    && PageOffset(l.start) == PageOffset(l.textStart) == PageOffset(l.rodataStart) == PageOffset(l.dataStart) == 0
    && OneTable(PageOf(l.start), PageCount(l.dataEnd - l.start))
  }

  predicate InSection(v: nat, from: nat, to: nat) {
    from < to && PageOf(from) <= v < PageOf(from) + PageCount(to - from)
  }

  /** The section's pages are among those of the image. */
  lemma SectionPages(l: Layout, from: nat, to: nat)
    requires WellLaid(l) && l.start <= from < to <= l.dataEnd && PageOffset(from) == 0
    ensures IsKernelAddress(from) && OneTable(PageOf(from), PageCount(to - from))
    ensures PageOf(from) == PageOf(l.start) + (from - l.start) / PAGE_SIZE
    ensures PageOf(from) + PageCount(to - from) <= PageOf(l.start) + PageCount(l.dataEnd - l.start)
    ensures PageOf(from) / PT_LENGTH == PageOf(l.start) / PT_LENGTH
  {
    var d, n := from - l.start, PageCount(l.dataEnd - l.start);
    PartPages(l.start, from, to, l.dataEnd);
    hide PageCount, PageOffset, OneTable;
    TableEnds(PageOf(l.start), n);
    assert PageOf(l.start) + d / PAGE_SIZE < PAGE_LIMIT;
    hide PageOf;
    PageOn(l.start, d);
    PartOfTable(PageOf(l.start), n, d / PAGE_SIZE, PageCount(to - from));
  }

  lemma PartOfTable(page: nat, pages: nat, k: nat, some: nat)
    requires OneTable(page, pages) && 0 < some && k + some <= pages
    ensures OneTable(page + k, some) && (page + k) / PT_LENGTH == page / PT_LENGTH
  {
    var q := page / PT_LENGTH;
    assert page == q * PT_LENGTH + page % PT_LENGTH;
    assert (page + k) / PT_LENGTH == q && (page + k) % PT_LENGTH == page % PT_LENGTH + k;
    TableEnds(page, pages);
  }

  lemma PartPages(start: nat, from: nat, to: nat, end: nat)
    requires start <= from < to <= end && PageOffset(start) == PageOffset(from) == 0
    ensures (from - start) / PAGE_SIZE + PageCount(to - from) <= PageCount(end - start) && PageCount(to - from) > 0
  {
    var a, b := start / PAGE_SIZE, from / PAGE_SIZE;
    assert start == a * PAGE_SIZE && from == b * PAGE_SIZE;
    assert (from - start) / PAGE_SIZE == b - a;
  }

  /** Earlier sections end on lower pages. */
  lemma SectionsApart(l: Layout, from: nat, to: nat, from': nat)
    requires WellLaid(l) && l.start <= from < to <= from' < l.dataEnd && PageOffset(from) == PageOffset(from') == 0
    ensures PageOf(from) + PageCount(to - from) <= PageOf(from')
  {
    SectionPages(l, from, to);
    SectionPages(l, from', l.dataEnd);
    hide PageOf, OneTable;
    Apart(l.start, from, to, from');
  }

  lemma Apart(start: nat, from: nat, to: nat, from': nat)
    requires start <= from < to <= from' && PageOffset(start) == PageOffset(from) == PageOffset(from') == 0
    ensures (from - start) / PAGE_SIZE + PageCount(to - from) <= (from' - start) / PAGE_SIZE
  {
    var a, b, c := start / PAGE_SIZE, from / PAGE_SIZE, from' / PAGE_SIZE;
    assert start == a * PAGE_SIZE && from == b * PAGE_SIZE && from' == c * PAGE_SIZE;
    assert from - start == (b - a) * PAGE_SIZE && from' - start == (c - a) * PAGE_SIZE && to - from <= (c - b) * PAGE_SIZE;
  }

  /**
   * Why the order matters: of two runs in one leaf table, the pages of the first can be written after the second
   * call exactly if both calls ask for it.
   */
  lemma LastCallLimits(tree0: seq<Node>, tree1: seq<Node>, tree2: seq<Node>, page: nat, pages: nat, flags: Flags,
                       page': nat, pages': nat, flags': Flags, v: nat)
    requires FlagsRange(tree0, tree1, page, pages, flags) && FlagsRange(tree1, tree2, page', pages', flags')
    requires page <= v < page + pages && !(page' <= v < page' + pages') && v < PAGE_LIMIT && v / PT_LENGTH == page' / PT_LENGTH
    requires View(tree0, v).Mapped?
    ensures Rights(tree2, v) == Reached(View(tree0, v).entry.frame, flags.writable && flags'.writable,
                                        flags.user && flags'.user, !flags.executable)
  {
    hide View, Rights;
  }

  /** `vmk_flag_range` within one leaf table: it succeeds exactly if all its pages are mapped. */
  method FlagSection(vm: PageTables, from: nat, to: nat, flags: Flags) returns (res: Status)
    requires vm.Valid() && Coherent(vm.tree, vm.tlb) && IsKernelAddress(from) && PageOffset(from) == 0 && !flags.user && from < to
    requires OneTable(PageOf(from), PageCount(to - from)) && !View(vm.tree, PageOf(from)).Outside?
    modifies vm
    ensures vm.Valid() && Coherent(vm.tree, vm.tlb)
    ensures res == if RangeMapped(old(vm.tree), PageOf(from), PageCount(to - from)) then SUCCESS else ENOMAP
    ensures res == SUCCESS ==> FlagsRange(old(vm.tree), vm.tree, PageOf(from), PageCount(to - from), flags)
    ensures vm.tree == Flagging(old(vm.tree), PageOf(from), PageCount(to - from), flags).0
  {
    ghost var page, pages := PageOf(from), PageCount(to - from);
    Shape(vm);
    FlaggingOneTable(vm.tree, page, pages, flags);
    OneTableStraight(page, pages);
    VisitsRange(vm.tree, page, pages);
    hide FlagsRange, RangeMapped, AllVisited, Flagging, PageTables.Valid, Coherent, PageOf, View;
    res := VmkFlagPages(vm, from, PageCount(to - from), flags);
  }

  /** Re-flagging a part keeps the whole image mapped and changes no frame. */
  ghost predicate KeepsFrames(tree: seq<Node>, tree': seq<Node>) {
    forall v: nat | v < PAGE_LIMIT ::
      (View(tree, v).Mapped? <==> View(tree', v).Mapped?) &&
      (View(tree, v).Mapped? ==> View(tree', v).entry.frame == View(tree, v).entry.frame)
  }

  lemma FlagsKeepFrames(tree: seq<Node>, tree': seq<Node>, page: nat, pages: nat, flags: Flags)
    requires FlagsRange(tree, tree', page, pages, flags)
    ensures KeepsFrames(tree, tree')
  {
    hide View, Rights;
  }

  lemma StillMapped(tree: seq<Node>, tree': seq<Node>, l: Layout, from: nat, to: nat)
    requires WellLaid(l) && l.start <= from < to <= l.dataEnd && PageOffset(from) == 0
    requires RangeMapped(tree, PageOf(l.start), PageCount(l.dataEnd - l.start)) && KeepsFrames(tree, tree')
    ensures RangeMapped(tree', PageOf(l.start), PageCount(l.dataEnd - l.start)) && RangeMapped(tree', PageOf(from), PageCount(to - from))
  {
    SectionPages(l, from, to);
    TableEnds(PageOf(l.start), PageCount(l.dataEnd - l.start));
    hide View, PageOf, PageCount;
  }

  /** Every page of the section has exactly these rights, whatever its frame. */
  ghost predicate Protects(tree: seq<Node>, from: nat, to: nat, writable: bool, executable: bool) {
    forall v: nat | v < PAGE_LIMIT && InSection(v, from, to) ::
      View(tree, v).Mapped? && Rights(tree, v) == Reached(View(tree, v).entry.frame, writable, false, !executable)
  }

  /** Entry and data are RW-, text is R-X, rodata is R--. */
  ghost predicate Protected(tree: seq<Node>, l: Layout) {
    && Protects(tree, l.start, l.textStart, true, false) && Protects(tree, l.textStart, l.textEnd, false, true)
    && Protects(tree, l.rodataStart, l.rodataEnd, false, false) && Protects(tree, l.dataStart, l.dataEnd, true, false)
  }

  /** No page of a section can be both written and executed. */
  lemma NoWriteAndExecute(tree: seq<Node>, l: Layout, v: nat)
    requires Protected(tree, l) && v < PAGE_LIMIT
    requires InSections(v, l)
    ensures Rights(tree, v).Reached? && (Rights(tree, v).writable ==> Rights(tree, v).noExecute)
  {
    hide Rights, View, InSection;
  }

  /** What the walk to the byte at this address grants. */
  ghost predicate Grants(tree: seq<Node>, a: nat, writable: bool, user: bool, noExecute: bool) {
    View(tree, PageOf(a)).Mapped? && Rights(tree, PageOf(a)) == Reached(View(tree, PageOf(a)).entry.frame, writable, user, noExecute)
  }

  /** Byte by byte: entry and data can be written and not executed, text executed and not written, rodata neither. */
  ghost predicate EveryByte(tree: seq<Node>, l: Layout) {
    && (forall a: nat | l.start <= a < l.textStart :: Grants(tree, a, true, false, true))
    && (forall a: nat | l.textStart <= a < l.textEnd :: Grants(tree, a, false, false, false))
    && (forall a: nat | l.rodataStart <= a < l.rodataEnd :: Grants(tree, a, false, false, true))
    && (forall a: nat | l.dataStart <= a < l.dataEnd :: Grants(tree, a, true, false, true))
  }

  lemma SectionByte(tree: seq<Node>, l: Layout, from: nat, to: nat, writable: bool, executable: bool, a: nat)
    requires WellLaid(l) && l.start <= from <= a < to <= l.dataEnd && PageOffset(from) == 0
    requires Protects(tree, from, to, writable, executable)
    ensures Grants(tree, a, writable, false, !executable)
  {
    SectionPages(l, from, to);
    TableEnds(PageOf(from), PageCount(to - from));
    InPages(a - from, to - from);
    hide View, Rights, WellLaid, OneTable, PageOf, PageCount;
    PageOn(from, a - from);
    assert InSection(PageOf(a), from, to);
  }

  lemma InPages(b: nat, bytes: nat)
    requires b < bytes
    ensures b / PAGE_SIZE < PageCount(bytes)
  {
  }

  lemma BytesProtected(tree: seq<Node>, l: Layout)
    requires WellLaid(l) && Protected(tree, l)
    ensures EveryByte(tree, l)
  {
    hide Grants, Protects, PageOf, PageCount, OneTable;
    forall a: nat | l.start <= a < l.textStart ensures Grants(tree, a, true, false, true) {
      SectionByte(tree, l, l.start, l.textStart, true, false, a);
    }
    forall a: nat | l.textStart <= a < l.textEnd ensures Grants(tree, a, false, false, false) {
      SectionByte(tree, l, l.textStart, l.textEnd, false, true, a);
    }
    forall a: nat | l.rodataStart <= a < l.rodataEnd ensures Grants(tree, a, false, false, true) {
      SectionByte(tree, l, l.rodataStart, l.rodataEnd, false, false, a);
    }
    forall a: nat | l.dataStart <= a < l.dataEnd ensures Grants(tree, a, true, false, true) {
      SectionByte(tree, l, l.dataStart, l.dataEnd, true, false, a);
    }
  }

  /** The leaf entries of the section carry `flags`. */
  ghost predicate Carries(tree: seq<Node>, from: nat, to: nat, flags: Flags) {
    forall v: nat | v < PAGE_LIMIT && InSection(v, from, to) ::
      View(tree, v).Mapped? && View(tree, v) == Mapped(SetPte(View(tree, v).entry.frame, flags))
  }

  lemma NowCarries(tree: seq<Node>, tree': seq<Node>, from: nat, to: nat, flags: Flags)
    requires from < to && RangeMapped(tree, PageOf(from), PageCount(to - from))
    requires FlagsRange(tree, tree', PageOf(from), PageCount(to - from), flags)
    ensures Carries(tree', from, to, flags)
  {
    hide View, Rights, PageOf, PageCount;
  }

  /** A later call on another section leaves the entries of this one alone. */
  lemma StillCarries(tree: seq<Node>, tree': seq<Node>, l: Layout, from: nat, to: nat, flags: Flags, from': nat, to': nat, flags': Flags)
    requires WellLaid(l) && l.start <= from < to <= from' < to' <= l.dataEnd && PageOffset(from) == PageOffset(from') == 0
    requires Carries(tree, from, to, flags) && FlagsRange(tree, tree', PageOf(from'), PageCount(to' - from'), flags')
    ensures Carries(tree', from, to, flags)
  {
    SectionsApart(l, from, to, from');
    hide View, Rights, PageOf, PageCount, WellLaid;
  }

  /** Once the last call has allowed writing above the leaf entries, these alone decide. */
  lemma EntriesDecide(tree: seq<Node>, tree': seq<Node>, l: Layout, from: nat, to: nat, flags: Flags)
    requires WellLaid(l) && l.start <= from < to <= l.dataEnd && PageOffset(from) == 0 && !flags.user
    requires Carries(tree', from, to, flags) && FlagsRange(tree, tree', PageOf(l.dataStart), PageCount(l.dataEnd - l.dataStart), READ_WRITE)
    ensures Protects(tree', from, to, flags.writable, flags.executable)
  {
    SectionPages(l, from, to);
    SectionPages(l, l.dataStart, l.dataEnd);
    TableEnds(PageOf(from), PageCount(to - from));
    hide View, Rights, PageOf, PageCount, WellLaid, FlagsRange;
    forall v: nat | v < PAGE_LIMIT && InSection(v, from, to)
      ensures Rights(tree', v) == Reached(View(tree', v).entry.frame, flags.writable, false, !flags.executable)
    {
      SamePageTable(PageOf(from), PageCount(to - from), v);
      LimitedBy(tree, tree', PageOf(l.dataStart), PageCount(l.dataEnd - l.dataStart), READ_WRITE, v);
    }
  }

  lemma LimitedBy(tree: seq<Node>, tree': seq<Node>, page: nat, pages: nat, flags: Flags, v: nat)
    requires FlagsRange(tree, tree', page, pages, flags) && v < PAGE_LIMIT && v / PT_LENGTH == page / PT_LENGTH
    ensures Rights(tree', v) == Capped(View(tree', v), 0, flags)
  {
  }

  /** The four calls, in order, on the trees they lead through. */
  lemma Remapped(l: Layout, t0: seq<Node>, t1: seq<Node>, t2: seq<Node>, t3: seq<Node>, t4: seq<Node>)
    requires WellLaid(l) && RangeMapped(t0, PageOf(l.start), PageCount(l.dataEnd - l.start))
    requires FlagsRange(t0, t1, PageOf(l.start), PageCount(l.textStart - l.start), READ_WRITE)
    requires FlagsRange(t1, t2, PageOf(l.textStart), PageCount(l.textEnd - l.textStart), READ_EXECUTE)
    requires FlagsRange(t2, t3, PageOf(l.rodataStart), PageCount(l.rodataEnd - l.rodataStart), READ_ONLY)
    requires FlagsRange(t3, t4, PageOf(l.dataStart), PageCount(l.dataEnd - l.dataStart), READ_WRITE)
    ensures Protected(t4, l) && KeepsFrames(t0, t4)
  {
    hide FlagsRange, RangeMapped, Carries, Protects, KeepsFrames, PageOf, PageCount;
    FramesThrough(l, t0, t1, t2, t3, t4);
    NowCarries(t0, t1, l.start, l.textStart, READ_WRITE);
    StillCarries(t1, t2, l, l.start, l.textStart, READ_WRITE, l.textStart, l.textEnd, READ_EXECUTE);
    StillCarries(t2, t3, l, l.start, l.textStart, READ_WRITE, l.rodataStart, l.rodataEnd, READ_ONLY);
    StillCarries(t3, t4, l, l.start, l.textStart, READ_WRITE, l.dataStart, l.dataEnd, READ_WRITE);
    NowCarries(t1, t2, l.textStart, l.textEnd, READ_EXECUTE);
    StillCarries(t2, t3, l, l.textStart, l.textEnd, READ_EXECUTE, l.rodataStart, l.rodataEnd, READ_ONLY);
    StillCarries(t3, t4, l, l.textStart, l.textEnd, READ_EXECUTE, l.dataStart, l.dataEnd, READ_WRITE);
    NowCarries(t2, t3, l.rodataStart, l.rodataEnd, READ_ONLY);
    StillCarries(t3, t4, l, l.rodataStart, l.rodataEnd, READ_ONLY, l.dataStart, l.dataEnd, READ_WRITE);
    NowCarries(t3, t4, l.dataStart, l.dataEnd, READ_WRITE);
    EntriesDecide(t3, t4, l, l.start, l.textStart, READ_WRITE);
    EntriesDecide(t3, t4, l, l.textStart, l.textEnd, READ_EXECUTE);
    EntriesDecide(t3, t4, l, l.rodataStart, l.rodataEnd, READ_ONLY);
    EntriesDecide(t3, t4, l, l.dataStart, l.dataEnd, READ_WRITE);
  }

  /** The image stays mapped, to the same frames, from one call to the next. */
  lemma FramesThrough(l: Layout, t0: seq<Node>, t1: seq<Node>, t2: seq<Node>, t3: seq<Node>, t4: seq<Node>)
    requires WellLaid(l) && RangeMapped(t0, PageOf(l.start), PageCount(l.dataEnd - l.start))
    requires FlagsRange(t0, t1, PageOf(l.start), PageCount(l.textStart - l.start), READ_WRITE)
    requires FlagsRange(t1, t2, PageOf(l.textStart), PageCount(l.textEnd - l.textStart), READ_EXECUTE)
    requires FlagsRange(t2, t3, PageOf(l.rodataStart), PageCount(l.rodataEnd - l.rodataStart), READ_ONLY)
    requires FlagsRange(t3, t4, PageOf(l.dataStart), PageCount(l.dataEnd - l.dataStart), READ_WRITE)
    ensures KeepsFrames(t0, t4)
    ensures RangeMapped(t0, PageOf(l.start), PageCount(l.textStart - l.start))
    ensures RangeMapped(t1, PageOf(l.textStart), PageCount(l.textEnd - l.textStart))
    ensures RangeMapped(t2, PageOf(l.rodataStart), PageCount(l.rodataEnd - l.rodataStart))
    ensures RangeMapped(t3, PageOf(l.dataStart), PageCount(l.dataEnd - l.dataStart))
  {
    hide FlagsRange, RangeMapped, KeepsFrames, PageOf, PageCount;
    FlagsKeepFrames(t0, t1, PageOf(l.start), PageCount(l.textStart - l.start), READ_WRITE);
    FlagsKeepFrames(t1, t2, PageOf(l.textStart), PageCount(l.textEnd - l.textStart), READ_EXECUTE);
    FlagsKeepFrames(t2, t3, PageOf(l.rodataStart), PageCount(l.rodataEnd - l.rodataStart), READ_ONLY);
    FlagsKeepFrames(t3, t4, PageOf(l.dataStart), PageCount(l.dataEnd - l.dataStart), READ_WRITE);
    FramesSame(t0);
    FramesTrans(t0, t1, t2);
    FramesTrans(t0, t2, t3);
    FramesTrans(t0, t3, t4);
    StillMapped(t0, t0, l, l.start, l.textStart);
    StillMapped(t0, t1, l, l.textStart, l.textEnd);
    StillMapped(t0, t2, l, l.rodataStart, l.rodataEnd);
    StillMapped(t0, t3, l, l.dataStart, l.dataEnd);
  }

  lemma FramesSame(t: seq<Node>)
    ensures KeepsFrames(t, t)
  {
  }

  lemma FramesTrans(t: seq<Node>, t': seq<Node>, t'': seq<Node>)
    requires KeepsFrames(t, t') && KeepsFrames(t', t'')
    ensures KeepsFrames(t, t'')
  {
    hide View;
  }

  // ---- Pages between the sections ------------------------------------------------------------

  predicate InImage(v: nat, l: Layout) {
    InSection(v, l.start, l.dataEnd)
  }

  predicate InSections(v: nat, l: Layout) {
    || InSection(v, l.start, l.textStart) || InSection(v, l.textStart, l.textEnd)
    || InSection(v, l.rodataStart, l.rodataEnd) || InSection(v, l.dataStart, l.dataEnd)
  }

  /** A page of the image that belongs to no section. */
  predicate InGap(v: nat, l: Layout) {
    InImage(v, l) && !InSections(v, l)
  }

  /** Every page outside the sections keeps its entry. */
  ghost predicate SectionsOnly(tree: seq<Node>, tree': seq<Node>, l: Layout) {
    forall v: nat | v < PAGE_LIMIT && !InSections(v, l) :: View(tree', v) == View(tree, v)
  }

  lemma OnlySections(l: Layout, t0: seq<Node>, t1: seq<Node>, t2: seq<Node>, t3: seq<Node>, t4: seq<Node>)
    requires l.start < l.textStart < l.textEnd && l.rodataStart < l.rodataEnd && l.dataStart < l.dataEnd
    requires FlagsRange(t0, t1, PageOf(l.start), PageCount(l.textStart - l.start), READ_WRITE)
    requires FlagsRange(t1, t2, PageOf(l.textStart), PageCount(l.textEnd - l.textStart), READ_EXECUTE)
    requires FlagsRange(t2, t3, PageOf(l.rodataStart), PageCount(l.rodataEnd - l.rodataStart), READ_ONLY)
    requires FlagsRange(t3, t4, PageOf(l.dataStart), PageCount(l.dataEnd - l.dataStart), READ_WRITE)
    ensures SectionsOnly(t0, t4, l)
  {
    hide View, Rights, PageOf, PageCount;
    forall v: nat | v < PAGE_LIMIT && !InSections(v, l)
      ensures View(t4, v) == View(t0, v)
    {
      assert View(t1, v) == View(t0, v);
      assert View(t2, v) == View(t1, v);
      assert View(t3, v) == View(t2, v);
    }
  }

  /** No page of the image can be both written and executed. */
  ghost predicate Clean(tree: seq<Node>, l: Layout) {
    forall v: nat | v < PAGE_LIMIT && InImage(v, l) :: Rights(tree, v).Reached? && (Rights(tree, v).writable ==> Rights(tree, v).noExecute)
  }

  /** No entry of a page between the sections allows both. */
  ghost predicate GapsClean(tree: seq<Node>, l: Layout) {
    forall v: nat | v < PAGE_LIMIT && InGap(v, l) :: View(tree, v).Mapped? && (View(tree, v).entry.writable ==> View(tree, v).entry.noExecute)
  }

  /** A page between the sections keeps its entry, and the last call lets it be written as far as that entry does. */
  lemma GapKept(l: Layout, t0: seq<Node>, t1: seq<Node>, t2: seq<Node>, t3: seq<Node>, t4: seq<Node>, v: nat)
    requires WellLaid(l) && v < PAGE_LIMIT && InGap(v, l) && View(t0, v).Mapped?
    requires FlagsRange(t0, t1, PageOf(l.start), PageCount(l.textStart - l.start), READ_WRITE)
    requires FlagsRange(t1, t2, PageOf(l.textStart), PageCount(l.textEnd - l.textStart), READ_EXECUTE)
    requires FlagsRange(t2, t3, PageOf(l.rodataStart), PageCount(l.rodataEnd - l.rodataStart), READ_ONLY)
    requires FlagsRange(t3, t4, PageOf(l.dataStart), PageCount(l.dataEnd - l.dataStart), READ_WRITE)
    ensures Rights(t4, v) == Reached(View(t0, v).entry.frame, View(t0, v).entry.writable, false, View(t0, v).entry.noExecute)
  {
    SectionPages(l, l.start, l.dataEnd);
    SectionPages(l, l.dataStart, l.dataEnd);
    SamePageTable(PageOf(l.start), PageCount(l.dataEnd - l.start), v);
    OnlySections(l, t0, t1, t2, t3, t4);
    hide View, Rights, PageOf, PageCount, WellLaid, FlagsRange;
    LimitedBy(t3, t4, PageOf(l.dataStart), PageCount(l.dataEnd - l.dataStart), READ_WRITE, v);
  }

  /**
   * Afterwards no page of the image can be both written and executed if and only if none between the sections
   * could be before.
   */
  lemma CleanIff(l: Layout, t0: seq<Node>, t1: seq<Node>, t2: seq<Node>, t3: seq<Node>, t4: seq<Node>)
    requires WellLaid(l) && RangeMapped(t0, PageOf(l.start), PageCount(l.dataEnd - l.start)) && Protected(t4, l)
    requires FlagsRange(t0, t1, PageOf(l.start), PageCount(l.textStart - l.start), READ_WRITE)
    requires FlagsRange(t1, t2, PageOf(l.textStart), PageCount(l.textEnd - l.textStart), READ_EXECUTE)
    requires FlagsRange(t2, t3, PageOf(l.rodataStart), PageCount(l.rodataEnd - l.rodataStart), READ_ONLY)
    requires FlagsRange(t3, t4, PageOf(l.dataStart), PageCount(l.dataEnd - l.dataStart), READ_WRITE)
    ensures Clean(t4, l) <==> GapsClean(t0, l)
  {
    forall v: nat | v < PAGE_LIMIT && InImage(v, l)
      ensures View(t0, v).Mapped?
      ensures InGap(v, l) ==>
                Rights(t4, v) == Reached(View(t0, v).entry.frame, View(t0, v).entry.writable, false, View(t0, v).entry.noExecute)
      ensures !InGap(v, l) ==> Rights(t4, v).Reached? && (Rights(t4, v).writable ==> Rights(t4, v).noExecute)
    {
      ImageMapped(t0, l, v);
      if InGap(v, l) {
        GapKept(l, t0, t1, t2, t3, t4, v);
      } else {
        NoWriteAndExecute(t4, l, v);
      }
    }
    hide View, Rights, WellLaid, FlagsRange, RangeMapped, Protected, InGap, InImage;
    GapInImage(l);
  }

  lemma GapInImage(l: Layout)
    ensures forall v: nat | InGap(v, l) :: InImage(v, l)
  {
  }

  lemma ImageMapped(tree: seq<Node>, l: Layout, v: nat)
    requires l.start < l.dataEnd && RangeMapped(tree, PageOf(l.start), PageCount(l.dataEnd - l.start)) && InImage(v, l)
    ensures View(tree, v).Mapped?
  {
  }

  /** Sections that follow each other page by page, as the linker script aligns them, leave no page between them. */
  lemma NoGaps(l: Layout, v: nat)
    requires WellLaid(l) && AlignUp(l.textEnd) == l.rodataStart && AlignUp(l.rodataEnd) == l.dataStart && v < PAGE_LIMIT
    ensures !InGap(v, l)
  {
    SectionEnds(l, l.start, l.textStart, l.textStart);
    SectionEnds(l, l.textStart, l.textEnd, l.rodataStart);
    SectionEnds(l, l.rodataStart, l.rodataEnd, l.dataStart);
    ImageEnds(l);
    hide PageOf, OneTable, PageCount, AlignUp, PageOffset;
  }

  /** The pages of the image end with those of the data. */
  lemma ImageEnds(l: Layout)
    requires WellLaid(l)
    ensures PageOf(l.start) + PageCount(l.dataEnd - l.start) == PageOf(l.dataStart) + PageCount(l.dataEnd - l.dataStart)
  {
    SectionPages(l, l.dataStart, l.dataEnd);
    hide PageOf, OneTable, PageCount, AlignUp;
    Meet(l.start, l.dataStart, l.dataEnd, AlignUp(l.dataEnd));
  }

  /** Then the pages of the section end where those of the next begin. */
  lemma SectionEnds(l: Layout, from: nat, to: nat, next: nat)
    requires WellLaid(l) && l.start <= from < to <= next < l.dataEnd && PageOffset(from) == PageOffset(next) == 0 && AlignUp(to) == next
    ensures PageOf(from) + PageCount(to - from) == PageOf(next)
  {
    SectionPages(l, from, to);
    SectionPages(l, next, l.dataEnd);
    hide PageOf, OneTable, WellLaid;
    Meet(l.start, from, to, next);
  }

  /** A section that is followed by another at the next page boundary ends where that one begins. */
  lemma Meet(start: nat, from: nat, to: nat, next: nat)
    requires start <= from < to && PageOffset(start) == PageOffset(from) == 0 && AlignUp(to) == next
    ensures (from - start) / PAGE_SIZE + PageCount(to - from) == (next - start) / PAGE_SIZE == PageCount(to - start)
  {
    var a, b, c := start / PAGE_SIZE, from / PAGE_SIZE, (to + PAGE_SIZE - 1) / PAGE_SIZE;
    assert start == a * PAGE_SIZE && from == b * PAGE_SIZE && next == c * PAGE_SIZE;
    Shift(from, a);
    Shift(next, a);
    Shift(to + PAGE_SIZE - 1, a);
    Shift(to + PAGE_SIZE - 1, b);
    assert PageCount(to - from) == c - b && PageCount(to - start) == c - a;
  }

  lemma Shift(x: nat, k: nat)
    requires k * PAGE_SIZE <= x
    ensures (x - k * PAGE_SIZE) / PAGE_SIZE == x / PAGE_SIZE - k
  {
  }

  // ---- The way to the window meanwhile --------------------------------------------------------

  /** HIGHER_HALF, above which the kernel is linked. */
  const HIGHER_HALF: nat := 0xffff_ffff_8000_0000

  /** The image shares the root's last entry with the window. */
  lemma SharesRoot(vaddr: nat)
    requires HIGHER_HALF <= vaddr < WORD
    ensures Indices(PageOf(vaddr))[0] == RESERVED
  {
    KernelPage(vaddr);
    assert (vaddr - KERNEL_START) / PAGE_SIZE >= (HIGHER_HALF - KERNEL_START) / PAGE_SIZE;
    Digits(PageOf(vaddr));
  }

  /** The root's entry for the image and the window, and whether it allows writing. */
  ghost predicate RootAllows(tree: seq<Node>, writable: bool) {
    |tree| == PT_LENGTH && tree[RESERVED].Branch? && tree[RESERVED].entry.writable == writable
  }

  lemma RootRetagged(tree: seq<Node>, from: nat, pages: nat, flags: Flags)
    requires Shaped(tree, 0) && HIGHER_HALF <= from < WORD && 0 < pages && View(tree, PageOf(from)).Mapped?
    ensures RootAllows(Flagging(tree, PageOf(from), pages, flags).0, flags.writable)
  {
    SharesRoot(from);
    assert ShapedIn(tree[RESERVED], 0);
    var p := PathOf(PageOf(from));
    assert Lookup(tree, p) == LookupIn(tree[p.index], p.rest);
    hide Flagging, PageOf;
    FlaggingRoot(tree, PageOf(from), pages, flags);
  }

  /** What that means for the window: without the right to write in the root, no slot may be written under CR0.WP. */
  ghost predicate WindowFollows(vm: PageTables, writable: bool)
    reads vm
  {
    && Fetch(vm.Ram(), vm.kpml4)[RESERVED].writable == writable
    && (WayWritable(vm.Ram(), vm.kpml4, vm.spine1, vm.spine2) ==> writable)
  }

  lemma RootDecides(vm: PageTables, writable: bool)
    requires vm.Valid() && RootAllows(vm.tree, writable)
    ensures WindowFollows(vm, writable)
  {
    RootEntry(vm);
  }

  /**
   * The next write of a walker that has just taken the right to write from the root's last entry, as the second and
   * the third call do, goes through the window: it is allowed exactly because CR0.WP is clear.
   */
  lemma NextWrite(vm: PageTables, m0: Memory, locked0: set<nat>, tmp0: Table, child: Ptr, kids: seq<Node>, e: Pte, sub: seq<Node>,
                  writeProtect: bool)
    requires RESERVED < |kids| && vm.kpml4 != vm.tmp && !e.writable
    requires vm.Entered(m0, locked0, tmp0, vm.kpml4, child, RESERVED, 0, kids, e, sub)
    ensures child.Window? && child.slot < 511 && vm.tmpPt[child.slot].present
    ensures KernelMayWrite(Walk(vm.Ram(), vm.kpml4, WindowPath(child.slot)), writeProtect) <==> !writeProtect
  {
    vm.EnteredWindow(m0, locked0, tmp0, child, kids, e, sub);
    vm.SlotWritable(child.slot, writeProtect);
  }

  /** What has to hold before a section is re-flagged. */
  lemma ReadyToFlagSection(t0: seq<Node>, t: seq<Node>, l: Layout, from: nat, to: nat)
    requires WellLaid(l) && l.start <= from < to <= l.dataEnd && PageOffset(from) == 0
    requires RangeMapped(t0, PageOf(l.start), PageCount(l.dataEnd - l.start)) && KeepsFrames(t0, t)
    ensures IsKernelAddress(from) && OneTable(PageOf(from), PageCount(to - from)) && RangeMapped(t, PageOf(from), PageCount(to - from))
  {
    hide RangeMapped, KeepsFrames, PageOf, PageCount;
    SectionPages(l, from, to);
    StillMapped(t0, t, l, from, to);
  }

  /** One of the four calls. */
  method Protect(vm: PageTables, l: Layout, from: nat, to: nat, flags: Flags, ghost t0: seq<Node>) returns (res: Status)
    requires vm.Valid() && Coherent(vm.tree, vm.tlb) && WellLaid(l) && !flags.user
    requires l.start <= from < to <= l.dataEnd && PageOffset(from) == 0
    requires RangeMapped(t0, PageOf(l.start), PageCount(l.dataEnd - l.start)) && KeepsFrames(t0, vm.tree)
    modifies vm
    ensures vm.Valid() && Coherent(vm.tree, vm.tlb) && res == SUCCESS && KeepsFrames(t0, vm.tree)
    ensures FlagsRange(old(vm.tree), vm.tree, PageOf(from), PageCount(to - from), flags)
    ensures HIGHER_HALF <= from ==> RootAllows(vm.tree, flags.writable)
  {
    ghost var t, page, pages := vm.tree, PageOf(from), PageCount(to - from);
    Shape(vm);
    ReadyToFlagSection(t0, t, l, from, to);
    SectionRoot(t, from, page, pages, flags);
    hide FlagsRange, RangeMapped, KeepsFrames, PageOf, PageCount, WellLaid, PageTables.Valid, Coherent, View, Flagging, RootAllows;
    hide IsKernelAddress, OneTable;
    res := FlagSection(vm, from, to, flags);
    FlagsKeepFrames(t, vm.tree, page, pages, flags);
    FramesTrans(t0, t, vm.tree);
  }

  lemma SectionRoot(tree: seq<Node>, from: nat, page: nat, pages: nat, flags: Flags)
    requires Shaped(tree, 0) && IsKernelAddress(from) && page == PageOf(from) && OneTable(page, pages) && RangeMapped(tree, page, pages)
    ensures View(tree, page).Mapped?
    ensures HIGHER_HALF <= from ==> RootAllows(Flagging(tree, page, pages, flags).0, flags.writable)
  {
    assert View(tree, page).Mapped?;
    hide Flagging, PageOf, View;
    if HIGHER_HALF <= from {
      RootRetagged(tree, from, pages, flags);
    }
  }

  /** The first two calls; `t1` is the tree between them. The second one leaves a window that could not be written under CR0.WP. */
  method ProtectCode(vm: PageTables, l: Layout) returns (ghost t1: seq<Node>)
    requires vm.Valid() && Coherent(vm.tree, vm.tlb) && WellLaid(l)
    requires RangeMapped(vm.tree, PageOf(l.start), PageCount(l.dataEnd - l.start))
    modifies vm
    ensures vm.Valid() && Coherent(vm.tree, vm.tlb) && KeepsFrames(old(vm.tree), vm.tree)
    ensures FlagsRange(old(vm.tree), t1, PageOf(l.start), PageCount(l.textStart - l.start), READ_WRITE)
    ensures FlagsRange(t1, vm.tree, PageOf(l.textStart), PageCount(l.textEnd - l.textStart), READ_EXECUTE)
    ensures HIGHER_HALF <= l.start ==> RootAllows(t1, true) && WindowFollows(vm, false)
  {
    ghost var t0 := vm.tree;
    FramesSame(t0);
    assert l.start < l.textStart < l.textEnd <= l.dataEnd;
    hide FlagsRange, RangeMapped, KeepsFrames, PageOf, PageCount, PageOffset, PageTables.Valid, Coherent, IsKernelAddress, OneTable;
    hide RootAllows, WindowFollows;
    var res := Protect(vm, l, l.start, l.textStart, READ_WRITE, t0);
    assert res == SUCCESS;
    t1 := vm.tree;
    res := Protect(vm, l, l.textStart, l.textEnd, READ_EXECUTE, t0);
    assert res == SUCCESS;
    if HIGHER_HALF <= l.start {
      RootDecides(vm, false);
    }
  }

  /** The last two calls; only the last one lets the window be written again. */
  method ProtectData(vm: PageTables, l: Layout, ghost t0: seq<Node>) returns (ghost t3: seq<Node>)
    requires vm.Valid() && Coherent(vm.tree, vm.tlb) && WellLaid(l)
    requires RangeMapped(t0, PageOf(l.start), PageCount(l.dataEnd - l.start)) && KeepsFrames(t0, vm.tree)
    modifies vm
    ensures vm.Valid() && Coherent(vm.tree, vm.tlb)
    ensures FlagsRange(old(vm.tree), t3, PageOf(l.rodataStart), PageCount(l.rodataEnd - l.rodataStart), READ_ONLY)
    ensures FlagsRange(t3, vm.tree, PageOf(l.dataStart), PageCount(l.dataEnd - l.dataStart), READ_WRITE)
    ensures HIGHER_HALF <= l.start ==> RootAllows(t3, false) && WindowFollows(vm, true)
  {
    assert l.start <= l.rodataStart < l.rodataEnd <= l.dataStart < l.dataEnd;
    hide FlagsRange, RangeMapped, KeepsFrames, PageOf, PageCount, PageOffset, PageTables.Valid, Coherent, IsKernelAddress, OneTable;
    hide RootAllows, WindowFollows;
    var res := Protect(vm, l, l.rodataStart, l.rodataEnd, READ_ONLY, t0);
    assert res == SUCCESS;
    t3 := vm.tree;
    res := Protect(vm, l, l.dataStart, l.dataEnd, READ_WRITE, t0);
    assert res == SUCCESS;
    if HIGHER_HALF <= l.start {
      RootDecides(vm, true);
    }
  }

  /**
   * `kernel_remap`: its assertions never fail, no translation changes, and every section ends up with its rights, byte by byte. The
   * image is then free of pages that can be both written and executed exactly if no entry between the sections allowed both.
   */
  method KernelRemap(vm: PageTables, l: Layout)
    requires vm.Valid() && Coherent(vm.tree, vm.tlb) && WellLaid(l)
    requires RangeMapped(vm.tree, PageOf(l.start), PageCount(l.dataEnd - l.start))
    modifies vm
    ensures vm.Valid() && Coherent(vm.tree, vm.tlb) && Protected(vm.tree, l) && EveryByte(vm.tree, l)
    ensures KeepsFrames(old(vm.tree), vm.tree) && SectionsOnly(old(vm.tree), vm.tree, l)
    ensures Clean(vm.tree, l) <==> GapsClean(old(vm.tree), l)
    ensures HIGHER_HALF <= l.start ==> WindowFollows(vm, true)
  {
    ghost var t0 := vm.tree;
    assert l.start < l.textStart < l.textEnd <= l.rodataStart < l.rodataEnd <= l.dataStart < l.dataEnd;
    hide *;
    ghost var t1 := ProtectCode(vm, l);
    ghost var t2 := vm.tree;
    ghost var t3 := ProtectData(vm, l, t0);
    Remapped(l, t0, t1, t2, t3, vm.tree);
    CleanIff(l, t0, t1, t2, t3, vm.tree);
    OnlySections(l, t0, t1, t2, t3, vm.tree);
    BytesProtected(vm.tree, l);
  }
}
