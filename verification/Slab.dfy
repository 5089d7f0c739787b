/** The slab allocator (mm/mm.c): slabs grow by a page at a time, which is cut into chunks of one size. */
module Slab {
  import List
  import opened Paging
  import opened PageTree
  import opened PageView
  import opened PageStraight
  import opened Tlb
  import opened PhysicalMemory
  import opened VirtualMemory
  import opened KernelSpace
  import opened MemoryMap

  const SLAB_MAX: nat := 16
  /** Bytes of address space for each slab. */
  const SLAB_BYTES: nat := 0x10_0000_0000
  const SLAB_PAGES: nat := 0x100_0000
  const SLAB_FLAGS := Flags(true, false, true, false)

  function Pow2(n: nat): (p: nat)
    ensures p > 0
  {
    if n == 0 then 1 else 2 * Pow2(n - 1)
  }

  /** `slab_size`. */
  function SlabSize(kind: nat): (size: nat)
    ensures size > 0
  {
    var shift := kind / 2 % 8 + 4;
    var sz := if kind % 2 == 1 then Pow2(shift) + Pow2(shift - 1) else Pow2(shift);
    if sz > 1024 then if sz + 512 > 2048 then sz + 1024 else sz + 512 else sz
  }

  /** The sizes the names of the slab classes promise. */
  lemma SlabSizes(kind: nat)
    requires kind < SLAB_MAX
    ensures SlabSize(kind) == [16, 24, 32, 48, 64, 96, 128, 192, 256, 384, 512, 768, 1024, 2048, 3072, 4096][kind]
  {
    Powers();
    hide Pow2;
    var k := kind / 2;
    assert kind == 2 * k || kind == 2 * k + 1;
    assert k == 0 || k == 1 || k == 2 || k == 3 || k == 4 || k == 5 || k == 6 || k == 7;
  }

  lemma Powers()
    ensures Pow2(3) == 8 && Pow2(4) == 16 && Pow2(5) == 32 && Pow2(6) == 64 && Pow2(7) == 128
    ensures Pow2(8) == 256 && Pow2(9) == 512 && Pow2(10) == 1024 && Pow2(11) == 2048
  {
    assert Pow2(3) == 8;
    assert Pow2(5) == 32;
    assert Pow2(7) == 128;
    assert Pow2(9) == 512;
  }

  /** `SLABBASE`. */
  function SlabBase(kind: nat): nat {
    KERNEL_START + kind * SLAB_BYTES
  }

  // ---- Chunks --------------------------------------------------------------------------------

  /** The first `n` multiples of `size` from `start` on. */
  ghost function Chunks(start: nat, size: nat, n: nat): set<nat> {
    if n == 0 then {} else Chunks(start, size, n - 1) + {start + (n - 1) * size}
  }

  lemma {:induction false} ChunkIs(start: nat, size: nat, n: nat, x: nat)
    requires size > 0
    ensures x in Chunks(start, size, n) <==> exists k: nat :: k < n && x == start + k * size
  {
    if n > 0 {
      ChunkIs(start, size, n - 1, x);
    }
  }

  lemma {:induction false} ChunkBelow(start: nat, size: nat, n: nat, x: nat)
    requires size > 0 && x in Chunks(start, size, n)
    ensures start <= x && x + size <= start + n * size
    decreases n
  {
    assert n * size == (n - 1) * size + size;
    if x in Chunks(start, size, n - 1) {
      ChunkBelow(start, size, n - 1, x);
    }
  }

  /** Different chunks have no byte in common. */
  lemma {:induction false} ChunksDisjoint(start: nat, size: nat, n: nat, x: nat, y: nat)
    requires size > 0 && x in Chunks(start, size, n) && y in Chunks(start, size, n) && x != y
    ensures x + size <= y || y + size <= x
    decreases n
  {
    if x in Chunks(start, size, n - 1) {
      ChunkBelow(start, size, n - 1, x);
      if y in Chunks(start, size, n - 1) {
        ChunksDisjoint(start, size, n - 1, x, y);
      }
    } else {
      ChunkBelow(start, size, n - 1, y);
    }
  }

  /** The free list and the chunks handed out are, without repetition, the chunks there are. */
  ghost predicate Accounted(start: nat, size: nat, count: nat, freelist: seq<nat>, handed: set<nat>) {
    && (forall i, j | 0 <= i < j < |freelist| :: freelist[i] != freelist[j])
    && (forall x | x in freelist :: x !in handed)
    && (set x | x in freelist) + handed == Chunks(start, size, count)
  }

  /** The free list has gained `n` chunks, cut one after the other from `end` on; the last one is in front. */
  ghost predicate Added(freelist: seq<nat>, freelist': seq<nat>, end: nat, size: nat, n: nat) {
    && |freelist'| == n + |freelist| && freelist'[n..] == freelist
    && forall k | 0 <= k < n :: freelist'[k] == end + (n - 1 - k) * size
  }

  /** All chunks that end below `limit` have been cut, from `end` to `end'`, and they are in front of the free list. */
  ghost predicate CutUpTo(freelist: seq<nat>, freelist': seq<nat>, end: nat, end': nat, size: nat, n: nat, limit: nat) {
    Added(freelist, freelist', end, size, n) && end' == end + n * size && end' < limit <= end' + size
  }

  /** Chunks are cut exactly if there is room for one. */
  lemma AnyCut(freelist: seq<nat>, freelist': seq<nat>, end: nat, end': nat, size: nat, n: nat, limit: nat)
    requires CutUpTo(freelist, freelist', end, end', size, n, limit)
    ensures end' < limit <= end' + size && (n > 0 <==> end + size < limit)
  {
    hide Added;
    assert n > 0 ==> n * size == size + (n - 1) * size;
  }

  lemma AddedOne(freelist: seq<nat>, freelist': seq<nat>, end: nat, size: nat, n: nat)
    requires Added(freelist, freelist', end, size, n)
    ensures Added(freelist, [end + n * size] + freelist', end, size, n + 1)
    ensures end + n * size + size == end + (n + 1) * size
  {
    var more := [end + n * size] + freelist';
    assert more[n + 1..] == freelist'[n..];
    forall k | 0 <= k < n + 1
      ensures more[k] == end + (n + 1 - 1 - k) * size
    {
      assert k > 0 ==> more[k] == freelist'[k - 1];
    }
  }

  class Slab {
    const kind: nat
    const start: nat
    var end: nat
    /** The head of the list of free chunks; the links are in the chunks. */
    const head: List.Link
    ghost var links: seq<List.Link>
    /** The addresses of the free chunks, front first. */
    ghost var freelist: seq<nat>
    /** How many chunks have been cut so far, and which are in use. */
    ghost var count: nat
    ghost var handed: set<nat>

    /** One turn of the loop of `mm_init`. */
    constructor (kind: nat)
      ensures this.kind == kind && start == end == 0xffff_8000_0000_0000 + kind * 0x10_0000_0000 && count == 0 && handed == {} && Cut()
      ensures Linked() && fresh(head) && links == []
    {
      this.kind, start, end := kind, SlabBase(kind), SlabBase(kind);
      head := new List.Link(0);
      links, freelist, count, handed := [], [], 0, {};
      new;
      List.Init(head);
    }

    ghost predicate Cut()
      reads this
    {
      && start == SlabBase(kind)
      && end == start + count * SlabSize(kind)
      && Accounted(start, SlabSize(kind), count, freelist, handed)
    }

    /** The list holds the free chunks: link k is in chunk k. */
    ghost predicate Linked()
      reads `links, `freelist, head, links
    {
      List.Holds(head, links) && |links| == |freelist| && forall k | 0 <= k < |links| :: links[k].at == freelist[k]
    }

    /** The links this slab may change. */
    ghost function Nodes(): set<List.Link>
      reads `links
    {
      {head} + set x | x in links
    }

    /** `list_remove` of the first link. */
    method TakeFront() returns (chunk: nat)
      requires Linked() && freelist != []
      modifies `links, `freelist, Nodes()
      ensures Linked() && Nodes() <= old(Nodes()) && chunk == old(freelist[0]) && freelist == old(freelist[1..])
    {
      List.FrontIs(head, links);
      var front := head.next;
      List.Remove(front, head, links, 0);
      hide List.Holds;
      assert links[..0] + links[1..] == links[1..];
      chunk := front.at;
      links, freelist := links[1..], freelist[1..];
    }

    /** `list_insert` of a link in the chunk at this address. */
    method PutFront(at: nat)
      requires Linked()
      modifies `links, `freelist, Nodes()
      ensures Linked() && freelist == [at] + old(freelist) && fresh(Nodes() - old(Nodes()))
    {
      var chunk := new List.Link(at);
      List.Insert(head, chunk, links);
      hide List.Holds;
      links, freelist := [chunk] + links, [at] + freelist;
    }

    /** The first chunk of the free list is put to use. */
    method Pop() returns (chunk: nat)
      requires Cut() && Linked() && freelist != []
      modifies `links, `freelist, `handed, Nodes()
      ensures Cut() && handed == old(handed) + {chunk} && chunk == old(freelist[0]) && freelist == old(freelist[1..])
      ensures chunk !in old(handed) && chunk in Chunks(start, SlabSize(kind), count)
      ensures Linked() && Nodes() <= old(Nodes())
    {
      PopOne(start, SlabSize(kind), count, freelist, handed);
      hide SlabSize, Accounted, Chunks, List.Holds;
      chunk := TakeFront();
      handed := handed + {chunk};
    }

    /** One chunk is cut off the slab's memory and put at the front of the free list. */
    method CutChunk(next: nat)
      requires Cut() && Linked() && next == end + SlabSize(kind)
      modifies this, Nodes()
      ensures Cut() && Linked() && handed == old(handed) && count == old(count) + 1 && end == next
      ensures freelist == [old(end)] + old(freelist) && fresh(Nodes() - old(Nodes()))
    {
      CutOne(start, SlabSize(kind), count, freelist, handed);
      hide SlabSize, Accounted, List.Holds;
      PutFront(end);
      end, count := next, count + 1;
    }

    /** Cuts chunks off the slab's memory as long as they end below `limit`. */
    method Carve(limit: nat)
      requires Cut() && Linked() && end < limit
      modifies this, Nodes()
      ensures Cut() && handed == old(handed) && old(count) <= count
      ensures CutUpTo(old(freelist), freelist, old(end), end, SlabSize(kind), count - old(count), limit)
      ensures Linked() && fresh(Nodes() - old(Nodes()))
    {
      var chunkSize := SlabSize(kind);
      hide SlabSize, Linked, Added;
      var next := end + chunkSize;
      NoneAdded(freelist, end, chunkSize);
      while next < limit
        invariant Cut() && handed == old(handed) && old(count) <= count && next == end + chunkSize && end < limit
        invariant end == old(end) + (count - old(count)) * chunkSize
        invariant Added(old(freelist), freelist, old(end), chunkSize, count - old(count))
        invariant Linked() && fresh(Nodes() - old(Nodes()))
        decreases limit - next
      {
        AddedOne(old(freelist), freelist, old(end), chunkSize, count - old(count));
        CutChunk(next);
        next := next + chunkSize;
      }
    }
  }

  lemma NoneAdded(freelist: seq<nat>, end: nat, size: nat)
    ensures Added(freelist, freelist, end, size, 0)
  {
  }

  lemma CutOne(start: nat, size: nat, count: nat, freelist: seq<nat>, handed: set<nat>)
    requires size > 0 && Accounted(start, size, count, freelist, handed)
    ensures Accounted(start, size, count + 1, [start + count * size] + freelist, handed)
    ensures start + (count + 1) * size == start + count * size + size
  {
    var end := start + count * size;
    var freelist' := [end] + freelist;
    forall x | x in Chunks(start, size, count) ensures x != end { ChunkBelow(start, size, count, x); }
    assert end !in Chunks(start, size, count);
    assert (set x | x in freelist') == (set x | x in freelist) + {end};
    forall x | x in freelist ensures x != end { assert x in (set y | y in freelist); }
  }

  // ---- Growth --------------------------------------------------------------------------------

  function SlabPage(kind: nat): nat {
    PAGE_LIMIT / 2 + kind * SLAB_PAGES
  }

  /** The address of a page of the slab. */
  function PageStart(kind: nat, m: nat): nat {
    SlabBase(kind) + m * PAGE_SIZE
  }

  /** The page's entry lets it be written, but neither used by user code nor executed. */
  predicate IsData(s: Seen) {
    s.Mapped? && s.entry == Pte(true, true, false, true, s.entry.frame, 0)
  }

  /** Of the slab's address space exactly the first `mapped` pages are mapped, for data. */
  ghost predicate Backs(tree: seq<Node>, kind: nat, mapped: nat) {
    forall v: nat | SlabPage(kind) <= v < SlabPage(kind) + SLAB_PAGES ::
      if v < SlabPage(kind) + mapped then IsData(View(tree, v)) else View(tree, v) == Unmapped
  }

  /** Outside the slab's address space every translation is as before. */
  ghost predicate OthersKept(tree: seq<Node>, tree': seq<Node>, kind: nat) {
    forall v: nat | v < PAGE_LIMIT && !(SlabPage(kind) <= v < SlabPage(kind) + SLAB_PAGES) :: View(tree', v) == View(tree, v)
  }

  /** The pages up to PAGEALIGNUP(end). */
  function Extent(start: nat, end: nat): nat {
    if start <= end then PageCount(end - start) else 0
  }

  /** PAGEALIGNUP(end) is the end of the slab's memory, which is within the slab's address space. */
  ghost predicate Ready(s: Slab, tree: seq<Node>)
    reads s
  {
    s.kind < SLAB_MAX && s.Cut() && Extent(s.start, s.end) <= SLAB_PAGES && Backs(tree, s.kind, Extent(s.start, s.end))
  }

  /**
   * What a growth does to the page tables: one page gets a frame that was free, is no table and is locked now. It can be
   * written, but neither used by user code nor executed, over all levels.
   */
  ghost predicate Gained(tree: seq<Node>, tree': seq<Node>, locked: set<nat>, locked': set<nat>, page: nat, frame: nat) {
    && BackedBy(tree, tree', page, [frame], SLAB_FLAGS) && Fresh(locked, locked', [frame]) && frame !in Tables(tree')
    && Rights(tree', page) == Reached(frame, true, false, true)
  }

  /** What an allocation does to the page tables: nothing, or a growth of the slab. */
  ghost predicate GrownBy(tree: seq<Node>, tree': seq<Node>, locked: set<nat>, locked': set<nat>, kind: nat, frames: seq<nat>) {
    if frames == [] then tree' == tree && locked' == locked
    else
      && |frames| == 1
      && exists page: nat :: SlabPage(kind) <= page < SlabPage(kind) + SLAB_PAGES && Gained(tree, tree', locked, locked', page, frames[0])
  }

  lemma BacksMore(tree: seq<Node>, tree': seq<Node>, kind: nat, mapped: nat, frames: seq<nat>)
    requires kind < SLAB_MAX && Backs(tree, kind, mapped) && mapped < SLAB_PAGES && |frames| == 1
    requires BackedBy(tree, tree', SlabPage(kind) + mapped, frames, SLAB_FLAGS)
    ensures Backs(tree', kind, mapped + 1) && !Backs(tree', kind, mapped) && OthersKept(tree, tree', kind)
  {
    hide View, Rights;
    assert SlabPage(kind) + SLAB_PAGES <= PAGE_LIMIT;
    assert View(tree', SlabPage(kind) + mapped).Mapped?;
  }

  /** The next page of a slab: where it is, and that it is the only one its growth has to find free. */
  lemma NextPage(kind: nat, end: nat)
    requires kind < SLAB_MAX && SlabBase(kind) <= end && Extent(SlabBase(kind), end) < SLAB_PAGES
    ensures var at, m := AlignUp(end), Extent(SlabBase(kind), end);
            && at != 0 && IsKernelAddress(at) && PageOffset(at) == 0 && at == PageStart(kind, m) && end <= at < end + PAGE_SIZE
            && PageOf(at) == SlabPage(kind) + m < PAGE_LIMIT && OneTable(PageOf(at), 1)
  {
    var d, base := end - SlabBase(kind), SlabBase(kind);
    var m := Extent(base, end);
    assert base == (KERNEL_START / PAGE_SIZE + kind * SLAB_PAGES) * PAGE_SIZE;
    assert (end + PAGE_SIZE - 1) / PAGE_SIZE == KERNEL_START / PAGE_SIZE + kind * SLAB_PAGES + m;
    assert AlignUp(end) == base + m * PAGE_SIZE;
    KernelPage(AlignUp(end));
    assert (kind * SLAB_BYTES + m * PAGE_SIZE) / PAGE_SIZE == kind * SLAB_PAGES + m;
  }

  lemma PageFree(tree: seq<Node>, kind: nat, mapped: nat)
    requires Backs(tree, kind, mapped) && mapped < SLAB_PAGES
    ensures RangeFree(tree, SlabPage(kind) + mapped, 1) && !View(tree, SlabPage(kind) + mapped).Outside?
  {
    assert View(tree, SlabPage(kind) + mapped) == Unmapped;
  }

  /** The end of the slab's chunks after a growth lies in the page gained exactly if a chunk is smaller than a page. */
  lemma EndsInPage(start: nat, end: nat, size: nat, count: nat, m: nat, end': nat, count': nat, grew: bool)
    requires 0 < size <= PAGE_SIZE && end == start + count * size && end' == start + count' * size
    requires m == Extent(start, end) && count <= count' && (grew <==> count' > count)
    requires end' < start + (m + 1) * PAGE_SIZE <= end' + size
    requires grew <==> end + size < start + (m + 1) * PAGE_SIZE
    ensures grew <==> size < PAGE_SIZE
    ensures Extent(start, end') == if size < PAGE_SIZE then m + 1 else m
  {
    if size == PAGE_SIZE {
      assert m == count;
    }
  }

  /**
   * `alloc_slab`. The page is always there to be had, and growth adds a chunk, and keeps PAGEALIGNUP(end) the
   * end of the slab's memory, exactly if the chunks are smaller than a page.
   */
  method AllocSlab(vm: PageTables, imageEnd: nat, s: Slab) returns (ghost frames: seq<nat>)
    requires vm.Valid() && Coherent(vm.tree, vm.tlb) && Ready(s, vm.tree) && s.Linked()
    requires Extent(s.start, s.end) < SLAB_PAGES && vm.pm.Roomy(PT_LAST_LEVEL + 1)
    modifies vm, vm.pm, vm.pm.bitmap`unset, vm.pm.bitmap.bytes, s, s.Nodes()
    ensures vm.Valid() && Coherent(vm.tree, vm.tlb) && OthersKept(old(vm.tree), vm.tree, s.kind)
    ensures s.Cut() && s.handed == old(s.handed)
    ensures s.count > old(s.count) <==> SlabSize(s.kind) < PAGE_SIZE
    ensures Ready(s, vm.tree) <==> SlabSize(s.kind) < PAGE_SIZE
    ensures old(s.count) <= s.count
    ensures CutUpTo(old(s.freelist), s.freelist, old(s.end), s.end, SlabSize(s.kind), s.count - old(s.count),
                    AlignUp(old(s.end)) + PAGE_SIZE)
    ensures s.Linked() && fresh(s.Nodes() - old(s.Nodes()))
    ensures frames != [] && GrownBy(old(vm.tree), vm.tree, old(vm.pm.locked), vm.pm.locked, s.kind, frames)
  {
    hide GrownBy, Ready, Backs, PageTables.Valid, Coherent, OthersKept, Slab.Cut, Slab.Linked, Extent, PageStart, SlabSize, CutUpTo, AlignUp;
    var limit;
    ghost var m;
    limit, frames, m := GrowNext(vm, imageEnd, s);
    label Grown:
    CarvePage(s, limit, vm.tree, m);
    StillValid@Grown(vm);
  }

  /** The first half of `alloc_slab`: the page at PAGEALIGNUP(end), up to whose end chunks may then be cut. */
  method GrowNext(vm: PageTables, imageEnd: nat, s: Slab) returns (limit: nat, ghost frames: seq<nat>, ghost m: nat)
    requires vm.Valid() && Coherent(vm.tree, vm.tlb) && Ready(s, vm.tree)
    requires Extent(s.start, s.end) < SLAB_PAGES && vm.pm.Roomy(PT_LAST_LEVEL + 1)
    modifies vm, vm.pm, vm.pm.bitmap`unset, vm.pm.bitmap.bytes
    ensures vm.Valid() && Coherent(vm.tree, vm.tlb) && OthersKept(old(vm.tree), vm.tree, s.kind)
    ensures s.kind < SLAB_MAX && s.Cut() && m == Extent(s.start, s.end) && m < SLAB_PAGES
    ensures s.end < limit == PageStart(s.kind, m + 1) == AlignUp(s.end) + PAGE_SIZE
    ensures Backs(vm.tree, s.kind, m + 1) && !Backs(vm.tree, s.kind, m)
    ensures frames != [] && GrownBy(old(vm.tree), vm.tree, old(vm.pm.locked), vm.pm.locked, s.kind, frames)
  {
    m := Extent(s.start, s.end);
    var at, size: nat := AlignUp(s.end), PAGE_SIZE;
    NextGrowth(s, vm.tree, at, m);
    ghost var kind := s.kind;
    hide *;
    var p;
    ghost var gained;
    p, gained := GrowPage(vm, imageEnd, at, kind, m);
    StillCut(s);
    limit, frames := p + size, gained;
  }

  lemma NextGrowth(s: Slab, tree: seq<Node>, at: nat, m: nat)
    requires Ready(s, tree) && m == Extent(s.start, s.end) && m < SLAB_PAGES && at == AlignUp(s.end)
    ensures s.kind < SLAB_MAX && s.Cut() && Backs(tree, s.kind, m)
    ensures at != 0 && IsKernelAddress(at) && PageOffset(at) == 0 && OneTable(PageOf(at), 1) && PageOf(at) == SlabPage(s.kind) + m
    ensures s.end < at + PAGE_SIZE == PageStart(s.kind, m + 1)
  {
    hide *;
    Opened(s, tree);
    NextPage(s.kind, s.end);
    Limit(at, s.kind, m, s.end);
  }

  twostate lemma StillCut(s: Slab)
    requires old(s.Cut()) && unchanged(s)
    ensures s.Cut()
  {
  }

  method CarvePage(s: Slab, limit: nat, ghost tree: seq<Node>, ghost m: nat)
    requires s.kind < SLAB_MAX && s.Cut() && s.Linked() && m == Extent(s.start, s.end) && m < SLAB_PAGES
    requires s.end < limit == PageStart(s.kind, m + 1) && Backs(tree, s.kind, m + 1) && !Backs(tree, s.kind, m)
    modifies s, s.Nodes()
    ensures s.Cut() && s.handed == old(s.handed) && old(s.count) <= s.count
    ensures s.count > old(s.count) <==> SlabSize(s.kind) < PAGE_SIZE
    ensures Ready(s, tree) <==> SlabSize(s.kind) < PAGE_SIZE
    ensures CutUpTo(old(s.freelist), s.freelist, old(s.end), s.end, SlabSize(s.kind), s.count - old(s.count), limit)
    ensures s.Linked() && fresh(s.Nodes() - old(s.Nodes()))
  {
    ghost var end0, freelist0, count0 := s.end, s.freelist, s.count;
    Begins(s);
    hide *;
    s.Carve(limit);
    Carved(s, tree, end0, freelist0, count0, m, limit);
  }

  ghost predicate CutAt(start: nat, end: nat, size: nat, count: nat) {
    end == start + count * size
  }

  lemma Begins(s: Slab)
    requires s.Cut()
    ensures CutAt(s.start, s.end, SlabSize(s.kind), s.count)
  {
  }

  twostate lemma StillValid(vm: PageTables)
    requires old(vm.Valid()) && unchanged(vm) && unchanged(vm.pm) && unchanged(vm.pm.bitmap) && unchanged(vm.pm.bitmap.bytes)
    ensures vm.Valid()
  {
  }

  lemma Opened(s: Slab, tree: seq<Node>)
    requires Ready(s, tree)
    ensures s.kind < SLAB_MAX && s.start == SlabBase(s.kind) && s.Cut() && Backs(tree, s.kind, Extent(s.start, s.end))
    ensures s.start <= s.end
  {
    hide SlabSize, Backs, Extent, Accounted;
  }

  lemma Limit(p: nat, kind: nat, m: nat, end: nat)
    requires p == PageStart(kind, m) && end <= p
    ensures end < p + PAGE_SIZE == PageStart(kind, m + 1)
  {
  }

  lemma Carved(s: Slab, tree: seq<Node>, end0: nat, freelist0: seq<nat>, count0: nat, m: nat, limit: nat)
    requires s.kind < SLAB_MAX && s.Cut() && CutAt(s.start, end0, SlabSize(s.kind), count0) && m == Extent(s.start, end0) && m < SLAB_PAGES
    requires count0 <= s.count && limit == PageStart(s.kind, m + 1)
    requires CutUpTo(freelist0, s.freelist, end0, s.end, SlabSize(s.kind), s.count - count0, limit)
    requires Backs(tree, s.kind, m + 1) && !Backs(tree, s.kind, m)
    ensures s.count > count0 <==> SlabSize(s.kind) < PAGE_SIZE
    ensures Ready(s, tree) <==> SlabSize(s.kind) < PAGE_SIZE
  {
    SlabSizes(s.kind);
    AnyCut(freelist0, s.freelist, end0, s.end, SlabSize(s.kind), s.count - count0, limit);
    hide CutUpTo;
    EndsInPage(s.start, end0, SlabSize(s.kind), count0, m, s.end, s.count, s.count > count0);
    hide SlabSize, Backs, Extent;
  }

  /** Gaining one page. */
  method GrowPage(vm: PageTables, imageEnd: nat, at: nat, ghost kind: nat, ghost m: nat) returns (p: nat, ghost frames: seq<nat>)
    requires vm.Valid() && Coherent(vm.tree, vm.tlb) && vm.pm.Roomy(PT_LAST_LEVEL + 1)
    requires kind < SLAB_MAX && Backs(vm.tree, kind, m) && m < SLAB_PAGES
    requires at != 0 && IsKernelAddress(at) && PageOffset(at) == 0 && OneTable(PageOf(at), 1) && PageOf(at) == SlabPage(kind) + m
    modifies vm, vm.pm, vm.pm.bitmap`unset, vm.pm.bitmap.bytes
    ensures vm.Valid() && Coherent(vm.tree, vm.tlb) && p == at
    ensures Backs(vm.tree, kind, m + 1) && !Backs(vm.tree, kind, m) && OthersKept(old(vm.tree), vm.tree, kind)
    ensures frames != [] && GrownBy(old(vm.tree), vm.tree, old(vm.pm.locked), vm.pm.locked, kind, frames)
  {
    ghost var tree0, locked0, page := vm.tree, vm.pm.locked, PageOf(at);
    PageFree(tree0, kind, m);
    assert PageCount(PAGE_SIZE) == 1;
    assert !SLAB_FLAGS.user && SLAB_FLAGS.strict;
    RegionOneTable(vm, page, 1, SLAB_FLAGS);
    Shape(vm);
    OneTableStraight(page, 1);
    var size := PAGE_SIZE;
    hide *;
    ghost var tlb0 := vm.tlb;
    var halted;
    ghost var gained;
    halted, p, gained := MmMap(vm, imageEnd, at, size, SLAB_FLAGS);
    MmStraight(tree0, vm.tree, locked0, vm.pm.locked, tlb0, at, 1, SLAB_FLAGS, halted, p, gained);
    frames := gained;
    PageGained(tree0, vm.tree, locked0, vm.pm.locked, kind, m, at, p, frames);
    assert p != NULL;
  }

  lemma PageGained(tree: seq<Node>, tree': seq<Node>, locked: set<nat>, locked': set<nat>, kind: nat, m: nat, at: nat, p: nat,
                   frames: seq<nat>)
    requires kind < SLAB_MAX && Backs(tree, kind, m) && m < SLAB_PAGES && at != NULL && PageOf(at) == SlabPage(kind) + m
    requires FitsAt(tree, PageOf(at), 1) && MmMapped(tree, tree', locked, locked', at, 1, SLAB_FLAGS, p, frames)
    ensures p == at != NULL && Backs(tree', kind, m + 1) && !Backs(tree', kind, m) && OthersKept(tree, tree', kind)
    ensures frames != [] && GrownBy(tree, tree', locked, locked', kind, frames)
  {
    BacksMore(tree, tree', kind, m, frames);
    hide BackedBy, Fresh, Backs, OthersKept;
    assert frames == [frames[0]];
    assert Gained(tree, tree', locked, locked', SlabPage(kind) + m, frames[0]);
  }

  // ---- Allocation ----------------------------------------------------------------------------

  /** Byte `b` from the address on is mapped for data. */
  ghost predicate Writable(tree: seq<Node>, addr: nat, b: nat) {
    IsData(View(tree, PageOf(addr + b)))
  }

  /** A chunk is mapped as a whole, even where it straddles a page boundary. */
  lemma ChunkMapped(s: Slab, tree: seq<Node>, x: nat)
    requires Ready(s, tree) && x in Chunks(s.start, SlabSize(s.kind), s.count)
    ensures forall b: nat | b < SlabSize(s.kind) :: Writable(tree, x, b)
  {
    ChunkBelow(s.start, SlabSize(s.kind), s.count, x);
    hide SlabSize, Chunks, Writable;
    forall b: nat | b < SlabSize(s.kind)
      ensures Writable(tree, x, b)
    {
      ByteWritable(tree, s.kind, s.end, x + b, x, b);
    }
  }

  lemma ByteWritable(tree: seq<Node>, kind: nat, end: nat, byte: nat, x: nat, b: nat)
    requires kind < SLAB_MAX && SlabBase(kind) <= byte < end && Extent(SlabBase(kind), end) <= SLAB_PAGES && byte == x + b
    requires Backs(tree, kind, Extent(SlabBase(kind), end))
    ensures Writable(tree, x, b)
  {
    var d := byte - SlabBase(kind);
    assert d / PAGE_SIZE < Extent(SlabBase(kind), end);
    KernelPage(byte);
    assert (kind * SLAB_BYTES + d) / PAGE_SIZE == kind * SLAB_PAGES + d / PAGE_SIZE;
    assert PageOf(byte) == SlabPage(kind) + d / PAGE_SIZE;
    hide View, PageOf;
  }

  lemma PopOne(start: nat, size: nat, count: nat, freelist: seq<nat>, handed: set<nat>)
    requires Accounted(start, size, count, freelist, handed) && freelist != []
    ensures Accounted(start, size, count, freelist[1..], handed + {freelist[0]})
    ensures freelist[0] !in handed && freelist[0] in Chunks(start, size, count)
  {
    var rest := freelist[1..];
    assert forall i | 0 <= i < |rest| :: rest[i] == freelist[i + 1];
    assert freelist[0] in freelist && freelist[0] in (set x | x in freelist);
    forall x | x in freelist ensures x == freelist[0] || x in rest {
      var i :| 0 <= i < |freelist| && freelist[i] == x;
      assert i > 0 ==> rest[i - 1] == x;
    }
    assert (set x | x in freelist) == (set x | x in rest) + {freelist[0]};
  }

  /**
   * `mm_alloc` from the slab of a class smaller than a page: a chunk that is not in use. As the free list and the
   * chunks in use account for all chunks, chunks in use never overlap.
   */
  method MmAlloc(vm: PageTables, imageEnd: nat, s: Slab) returns (chunk: nat, ghost frames: seq<nat>)
    requires vm.Valid() && Coherent(vm.tree, vm.tlb) && Ready(s, vm.tree) && s.Linked() && SlabSize(s.kind) < PAGE_SIZE
    requires s.freelist == [] ==> Extent(s.start, s.end) < SLAB_PAGES && vm.pm.Roomy(PT_LAST_LEVEL + 1)
    modifies vm, vm.pm, vm.pm.bitmap`unset, vm.pm.bitmap.bytes, s, s.Nodes()
    ensures vm.Valid() && Coherent(vm.tree, vm.tlb) && Ready(s, vm.tree) && OthersKept(old(vm.tree), vm.tree, s.kind)
    ensures chunk !in old(s.handed) && s.handed == old(s.handed) + {chunk}
    ensures chunk in Chunks(s.start, SlabSize(s.kind), s.count)
    ensures forall b: nat | b < SlabSize(s.kind) :: Writable(vm.tree, chunk, b)
    ensures s.Linked() && fresh(s.Nodes() - old(s.Nodes()))
    ensures frames == [] <==> old(s.freelist) != []
    ensures GrownBy(old(vm.tree), vm.tree, old(vm.pm.locked), vm.pm.locked, s.kind, frames)
  {
    Unchanged(vm.tree, vm.pm.locked, s.kind);
    frames := [];
    FreeIff(s);
    hide *;
    if List.IsEmpty(s.head) {
      frames := AllocSlab(vm, imageEnd, s);
    }
    chunk := Take(vm, s);
  }

  /** The test for an empty list tells whether there is a free chunk. */
  lemma FreeIff(s: Slab)
    requires s.Linked()
    ensures List.IsEmpty(s.head) <==> s.freelist == []
  {
    List.EmptyIff(s.head, s.links);
  }

  /** The first free chunk is handed out. */
  method Take(vm: PageTables, s: Slab) returns (chunk: nat)
    requires vm.Valid() && Ready(s, vm.tree) && s.Linked() && s.freelist != []
    modifies s, s.Nodes()
    ensures vm.Valid() && Ready(s, vm.tree) && chunk !in old(s.handed) && s.handed == old(s.handed) + {chunk}
    ensures s.Linked() && s.Nodes() <= old(s.Nodes())
    ensures chunk in Chunks(s.start, SlabSize(s.kind), s.count)
    ensures forall b: nat | b < SlabSize(s.kind) :: Writable(vm.tree, chunk, b)
  {
    ghost var tree := vm.tree;
    hide Backs, Extent, Chunks, SlabSize, Writable, Accounted;
    chunk := s.Pop();
    StillValid(vm);
    ChunkMapped(s, tree, chunk);
  }

  lemma Unchanged(tree: seq<Node>, locked: set<nat>, kind: nat)
    ensures OthersKept(tree, tree, kind) && GrownBy(tree, tree, locked, locked, kind, [])
  {
  }
}
