/** The kernel heap (mm/mm.c): sixteen slabs, whose chunks in use share no byte, neither virtual nor physical. */
module Heap {
  import List
  import opened Paging
  import opened PageTree
  import opened PageView
  import opened Tlb
  import opened PhysicalMemory
  import opened VirtualMemory
  import opened KernelSpace
  import opened MemoryMap
  import opened Slab
  import opened SlabClass

  predicate InHeap(v: nat) {
    SlabPage(0) <= v < SlabPage(SLAB_MAX)
  }

  /** No page of the heap is mapped yet. */
  ghost predicate HeapUnmapped(tree: seq<Node>) {
    forall v: nat | InHeap(v) :: View(tree, v) == Unmapped
  }

  /** No page of the heap shares its frame with any other page. */
  ghost predicate Private(tree: seq<Node>) {
    forall v: nat, w: nat | v < PAGE_LIMIT && w < PAGE_LIMIT && v != w && InHeap(v) && View(tree, v).Mapped? && View(tree, w).Mapped? ::
      View(tree, v).entry.frame != View(tree, w).entry.frame
  }

  /** Every slab is in order, only locked frames are mapped, and the heap's frames are its own. */
  ghost predicate Sound(slabs: seq<Slab>, tree: seq<Node>, locked: set<nat>)
    reads slabs
  {
    && |slabs| == SLAB_MAX && (forall i | 0 <= i < SLAB_MAX :: slabs[i].kind == i && Ready(slabs[i], tree))
    && AllBacked(tree, locked) && Private(tree)
  }

  /** No two slabs have a link in common. */
  ghost predicate LinksApart(slabs: seq<Slab>)
    reads slabs
  {
    forall i, j | 0 <= i < j < |slabs| :: slabs[i].Nodes() !! slabs[j].Nodes()
  }

  // ---- What an allocation keeps --------------------------------------------------------------

  /** The frame of a growth is shared with no other page. */
  lemma GrowthPrivate(tree: seq<Node>, tree': seq<Node>, locked: set<nat>, locked': set<nat>, kind: nat, frames: seq<nat>)
    requires kind < SLAB_MAX && AllBacked(tree, locked) && Private(tree) && GrownBy(tree, tree', locked, locked', kind, frames)
    ensures AllBacked(tree', locked') && Private(tree')
  {
    hide AllBacked, BackedBy, Fresh, View, Tables, Private;
    if frames != [] {
      var page: nat :| SlabPage(kind) <= page < SlabPage(kind) + SLAB_PAGES && Gained(tree, tree', locked, locked', page, frames[0]);
      NotShared(tree, tree', locked, locked', page, [frames[0]], SLAB_FLAGS);
      StillPrivate(tree, tree', page, frames[0]);
    }
  }

  lemma StillPrivate(tree: seq<Node>, tree': seq<Node>, page: nat, frame: nat)
    requires Private(tree) && BackedBy(tree, tree', page, [frame], SLAB_FLAGS)
    requires forall v: nat, w: nat | v < w < PAGE_LIMIT && (page <= v < page + 1 || page <= w < page + 1) ::
               View(tree', v).Mapped? && View(tree', w).Mapped? ==> View(tree', v).entry.frame != View(tree', w).entry.frame
    ensures Private(tree')
  {
    hide View, Rights;
    forall v: nat, w: nat | v < PAGE_LIMIT && w < PAGE_LIMIT && v != w && InHeap(v) && View(tree', v).Mapped? && View(tree', w).Mapped?
      ensures View(tree', v).entry.frame != View(tree', w).entry.frame
    {
      if v != page && w != page {
        assert View(tree', v) == View(tree, v) && View(tree', w) == View(tree, w);
      }
    }
  }

  /** Another slab stays in order. */
  lemma OtherReady(s: Slab, tree: seq<Node>, tree': seq<Node>, kind: nat)
    requires Ready(s, tree) && OthersKept(tree, tree', kind) && s.kind != kind && kind < SLAB_MAX
    ensures Ready(s, tree')
  {
    hide View, SlabSize;
    assert SlabPage(s.kind) + SLAB_PAGES <= PAGE_LIMIT;
  }

  /** All slabs but one are in order. */
  ghost predicate OthersReady(slabs: seq<Slab>, kind: nat, tree: seq<Node>)
    reads set i | 0 <= i < |slabs| && i != kind :: slabs[i]
  {
    forall i | 0 <= i < |slabs| && i != kind :: slabs[i].kind == i && Ready(slabs[i], tree)
  }

  /** Together, once one slab has served a request. */
  lemma SoundAgain(slabs: seq<Slab>, kind: nat, tree: seq<Node>, tree': seq<Node>, locked: set<nat>, locked': set<nat>, frames: seq<nat>)
    requires |slabs| == SLAB_MAX && kind < SLAB_MAX && AllBacked(tree, locked) && Private(tree)
    requires OthersReady(slabs, kind, tree) && slabs[kind].kind == kind && Ready(slabs[kind], tree')
    requires OthersKept(tree, tree', kind) && GrownBy(tree, tree', locked, locked', kind, frames)
    ensures Sound(slabs, tree', locked')
  {
    hide Ready, OthersKept, GrownBy, AllBacked, Private;
    GrowthPrivate(tree, tree', locked, locked', kind, frames);
    forall i | 0 <= i < SLAB_MAX
      ensures slabs[i].kind == i && Ready(slabs[i], tree')
    {
      if i != kind {
        OtherReady(slabs[i], tree, tree', kind);
      }
    }
  }

  /** There is a free chunk, or room to grow. */
  ghost predicate CanServe(s: Slab, pm: FrameAllocator)
    reads s, pm
  {
    s.freelist == [] ==> Extent(s.start, s.end) < SLAB_PAGES && pm.Roomy(PT_LAST_LEVEL + 1)
  }

  /** A slab as `mm_init` leaves it. */
  ghost predicate Untouched(s: Slab, kind: nat)
    reads s, s.head
  {
    s.kind == kind && s.Cut() && s.start == s.end && s.handed == {} && s.links == [] && s.Linked()
  }

  class Heap {
    const slabs: seq<Slab>

    /** `mm_init`, before anything of the heap has been mapped. */
    constructor (ghost tree: seq<Node>, ghost locked: set<nat>)
      requires AllBacked(tree, locked) && HeapUnmapped(tree)
      ensures Sound(slabs, tree, locked) && fresh(slabs) && forall i | 0 <= i < SLAB_MAX :: slabs[i].handed == {}
      ensures LinksApart(slabs) && forall i | 0 <= i < SLAB_MAX :: slabs[i].Linked() && fresh(slabs[i].Nodes())
    {
      var made: seq<Slab> := [];
      for i := 0 to SLAB_MAX
        invariant |made| == i && fresh(made) && forall j | 0 <= j < i :: Untouched(made[j], j) && fresh(made[j].head)
        invariant forall j, k | 0 <= j < k < i :: made[j].head != made[k].head
      {
        var s := new Slab(i);
        made := made + [s];
      }
      AllReady(made, tree);
      slabs := made;
    }

    /** Nothing has changed in the free lists of the other slabs. */
    twostate predicate OtherLinksKept(kind: nat)
      reads *
    {
      && (forall i | 0 <= i < |slabs| && i != kind ::
            slabs[i].links == old(slabs[i].links) && slabs[i].freelist == old(slabs[i].freelist))
      && (forall i | 0 <= i < |slabs| && i != kind ::
            slabs[i].head.prev == old(slabs[i].head.prev) && slabs[i].head.next == old(slabs[i].head.next))
      && (forall i, k | 0 <= i < |slabs| && i != kind && 0 <= k < |old(slabs[i].links)| ::
            old(slabs[i].links)[k].prev == old(slabs[i].links[k].prev) && old(slabs[i].links)[k].next == old(slabs[i].links[k].next))
    }

    twostate lemma OtherLinks(kind: nat)
      requires forall i | 0 <= i < |slabs| && i != kind ::
                 slabs[i].links == old(slabs[i].links) && slabs[i].freelist == old(slabs[i].freelist)
      requires forall i, x: List.Link | 0 <= i < |slabs| && i != kind && (x == slabs[i].head || x in old(slabs[i].links)) ::
                 x.prev == old(x.prev) && x.next == old(x.next)
      ensures OtherLinksKept(kind)
    {
    }

    /** The lists are in order again once one slab has changed its own links and added new ones. */
    twostate lemma ListsKept(kind: nat)
      requires kind < |slabs| && old(LinksApart(slabs)) && old(forall i | 0 <= i < |slabs| :: slabs[i].Linked())
      requires OtherLinksKept(kind) && slabs[kind].Linked() && fresh(slabs[kind].Nodes() - old(slabs[kind].Nodes()))
      ensures LinksApart(slabs) && forall i | 0 <= i < |slabs| :: slabs[i].Linked()
    {
      forall i | 0 <= i < |slabs| && i != kind
        ensures slabs[i].Linked() && slabs[i].Nodes() == old(slabs[i].Nodes()) && slabs[i].Nodes() !! slabs[kind].Nodes()
      {
        assert old(slabs[i].Linked());
      }
    }

    /** `mm_alloc`, given the class of the request. */
    method Alloc(vm: PageTables, imageEnd: nat, kind: nat) returns (chunk: nat)
      requires vm.Valid() && Coherent(vm.tree, vm.tlb) && Sound(slabs, vm.tree, vm.pm.locked) && kind < SLAB_MAX - 1
      requires CanServe(slabs[kind], vm.pm) && LinksApart(slabs) && forall i | 0 <= i < SLAB_MAX :: slabs[i].Linked()
      modifies vm, vm.pm, vm.pm.bitmap`unset, vm.pm.bitmap.bytes, slabs[kind], slabs[kind].Nodes()
      ensures vm.Valid() && Coherent(vm.tree, vm.tlb) && Sound(slabs, vm.tree, vm.pm.locked)
      ensures chunk !in old(slabs[kind].handed) && slabs[kind].handed == old(slabs[kind].handed) + {chunk}
      ensures forall i | 0 <= i < SLAB_MAX && i != kind :: slabs[i].handed == old(slabs[i].handed)
      ensures LinksApart(slabs) && (forall i | 0 <= i < SLAB_MAX :: slabs[i].Linked()) && fresh(slabs[kind].Nodes() - old(slabs[kind].Nodes()))
    {
      SmallerThanPage(kind);
      SoundParts(slabs, kind, vm.tree, vm.pm.locked);
      MayServe(slabs, kind);
      hide *;
      chunk := ServeKind(vm, imageEnd, kind);
      ListsKept(kind);
    }

    /**
     * `mm_alloc` of so many bytes: an assertion stops it if and only if these are at most 8 or at least 4096, and the chunk
     * handed out is large enough if and only if they are at most 48.
     */
    method Request(vm: PageTables, imageEnd: nat, sz: Size) returns (halted: bool, ghost kind: nat, chunk: nat)
      requires vm.Valid() && Coherent(vm.tree, vm.tlb) && Sound(slabs, vm.tree, vm.pm.locked)
      requires CanServe(slabs[Chosen(sz)], vm.pm) && LinksApart(slabs) && forall i | 0 <= i < SLAB_MAX :: slabs[i].Linked()
      modifies vm, vm.pm, vm.pm.bitmap`unset, vm.pm.bitmap.bytes, slabs[Chosen(sz)], slabs[Chosen(sz)].Nodes()
      ensures halted <==> Refused(sz)
      ensures vm.Valid() && Coherent(vm.tree, vm.tlb) && Sound(slabs, vm.tree, vm.pm.locked)
      ensures LinksApart(slabs) && forall i | 0 <= i < SLAB_MAX :: slabs[i].Linked()
      ensures forall i | 0 <= i < SLAB_MAX && (halted || i != kind) :: slabs[i].handed == old(slabs[i].handed)
      ensures !halted ==> kind == Chosen(sz) && chunk !in old(slabs[kind].handed) && slabs[kind].handed == old(slabs[kind].handed) + {chunk}
      ensures !halted ==> (LargeEnough(kind, sz) <==> Served(sz))
    {
      hide Chosen, LargeEnough, Refused, Served, AllBacked, Private, Backs, SlabSize, Extent, Coherent, Accounted;
      var chosen;
      halted, chosen := ClassFor(sz);
      kind, chunk := chosen, 0;
      if !halted {
        chunk := Alloc(vm, imageEnd, chosen);
      }
    }

    method ServeKind(vm: PageTables, imageEnd: nat, kind: nat) returns (chunk: nat)
      requires vm.Valid() && Coherent(vm.tree, vm.tlb) && |slabs| == SLAB_MAX && kind < SLAB_MAX
      requires Ready(slabs[kind], vm.tree) && SlabSize(slabs[kind].kind) < PAGE_SIZE && slabs[kind].kind == kind
      requires CanServe(slabs[kind], vm.pm) && slabs[kind].Linked()
      requires OthersReady(slabs, kind, vm.tree) && AllBacked(vm.tree, vm.pm.locked) && Private(vm.tree)
      requires forall i | 0 <= i < SLAB_MAX && i != kind :: slabs[i] != slabs[kind]
      requires forall i, x | 0 <= i < |slabs| && i != kind && (x == slabs[i].head || x in slabs[i].links) :: x !in slabs[kind].Nodes()
      modifies vm, vm.pm, vm.pm.bitmap`unset, vm.pm.bitmap.bytes, slabs[kind], slabs[kind].Nodes()
      ensures vm.Valid() && Coherent(vm.tree, vm.tlb) && Sound(slabs, vm.tree, vm.pm.locked)
      ensures slabs[kind].Linked() && fresh(slabs[kind].Nodes() - old(slabs[kind].Nodes()))
      ensures chunk !in old(slabs[kind].handed) && slabs[kind].handed == old(slabs[kind].handed) + {chunk}
      ensures forall i | 0 <= i < SLAB_MAX && i != kind :: slabs[i].handed == old(slabs[i].handed)
      ensures OtherLinksKept(kind)
    {
      hide *;
      chunk := Serve(vm, imageEnd, slabs[kind], slabs, kind);
      OtherLinks(kind);
    }
  }

  /** The slab of the class serves the request; the others do not notice. */
  method Serve(vm: PageTables, imageEnd: nat, s: Slab, ghost slabs: seq<Slab>, ghost kind: nat) returns (chunk: nat)
    requires vm.Valid() && Coherent(vm.tree, vm.tlb) && Ready(s, vm.tree) && SlabSize(s.kind) < PAGE_SIZE
    requires CanServe(s, vm.pm) && s.Linked()
    requires |slabs| == SLAB_MAX && kind < SLAB_MAX && slabs[kind] == s && s.kind == kind
    requires OthersReady(slabs, kind, vm.tree) && AllBacked(vm.tree, vm.pm.locked) && Private(vm.tree)
    requires forall i | 0 <= i < SLAB_MAX && i != kind :: slabs[i] != s
    modifies vm, vm.pm, vm.pm.bitmap`unset, vm.pm.bitmap.bytes, s, s.Nodes()
    ensures vm.Valid() && Coherent(vm.tree, vm.tlb) && Sound(slabs, vm.tree, vm.pm.locked)
    ensures s.Linked() && fresh(s.Nodes() - old(s.Nodes()))
    ensures chunk !in old(s.handed) && s.handed == old(s.handed) + {chunk}
  {
    ghost var tree0, locked0 := vm.tree, vm.pm.locked;
    hide Sound, Ready, AllBacked, Private, PageTables.Valid, Coherent, OthersKept, GrownBy, Writable, Extent, Chunks, SlabSize;
    ghost var frames;
    chunk, frames := MmAlloc(vm, imageEnd, s);
    SoundAgain(slabs, kind, tree0, vm.tree, locked0, vm.pm.locked, frames);
  }

  lemma MayServe(slabs: seq<Slab>, kind: nat)
    requires LinksApart(slabs) && kind < |slabs|
    ensures forall i, x | 0 <= i < |slabs| && i != kind && (x == slabs[i].head || x in slabs[i].links) :: x !in slabs[kind].Nodes()
  {
  }

  lemma SmallerThanPage(kind: nat)
    requires kind < SLAB_MAX - 1
    ensures SlabSize(kind) < PAGE_SIZE
  {
    SlabSizes(kind);
  }

  lemma SoundParts(slabs: seq<Slab>, kind: nat, tree: seq<Node>, locked: set<nat>)
    requires Sound(slabs, tree, locked) && kind < SLAB_MAX
    ensures |slabs| == SLAB_MAX && slabs[kind].kind == kind && Ready(slabs[kind], tree) && OthersReady(slabs, kind, tree)
    ensures forall i | 0 <= i < SLAB_MAX && i != kind :: slabs[i] != slabs[kind]
    ensures AllBacked(tree, locked) && Private(tree)
  {
  }

  lemma EmptyReady(s: Slab, tree: seq<Node>)
    requires s.kind < SLAB_MAX && Untouched(s, s.kind) && HeapUnmapped(tree)
    ensures Ready(s, tree) && s.Linked() && s.handed == {} && s.Nodes() == {s.head}
  {
    hide View, SlabSize;
    assert forall v: nat | SlabPage(s.kind) <= v < SlabPage(s.kind) + SLAB_PAGES :: InHeap(v);
  }

  lemma AllReady(slabs: seq<Slab>, tree: seq<Node>)
    requires |slabs| == SLAB_MAX && (forall i | 0 <= i < SLAB_MAX :: Untouched(slabs[i], i))
    requires HeapUnmapped(tree)
    requires forall i, j | 0 <= i < j < SLAB_MAX :: slabs[i].head != slabs[j].head
    ensures LinksApart(slabs)
    ensures forall i | 0 <= i < SLAB_MAX :: slabs[i].kind == i && Ready(slabs[i], tree) && slabs[i].Linked() && slabs[i].handed == {}
    ensures forall i | 0 <= i < SLAB_MAX :: slabs[i].Nodes() == {slabs[i].head}
  {
    hide View, SlabSize, Ready, Slab.Linked, Slab.Cut;
    forall i | 0 <= i < SLAB_MAX
      ensures slabs[i].kind == i && Ready(slabs[i], tree) && slabs[i].Linked() && slabs[i].handed == {} && slabs[i].Nodes() == {slabs[i].head}
    {
      EmptyReady(slabs[i], tree);
    }
  }

  // ---- What it is for ------------------------------------------------------------------------

  /** A chunk in use: where it lies and that it is mapped. */
  lemma InUse(slabs: seq<Slab>, tree: seq<Node>, locked: set<nat>, i: nat, x: nat)
    requires Sound(slabs, tree, locked) && i < SLAB_MAX && x in slabs[i].handed
    ensures exists k: nat :: x == 0xffff_8000_0000_0000 + i * 0x10_0000_0000 + k * SlabSize(i)
    ensures x + SlabSize(i) <= 0xffff_8000_0000_0000 + (i + 1) * 0x10_0000_0000
    ensures forall b: nat | b < SlabSize(i) :: Writable(tree, x, b)
  {
    var s := slabs[i];
    hide Backs, SlabSize, Writable, AllBacked, Private;
    assert x in Chunks(s.start, SlabSize(i), s.count);
    ChunkIs(s.start, SlabSize(i), s.count, x);
    ChunkBelow(s.start, SlabSize(i), s.count, x);
    ChunkMapped(s, tree, x);
    EndsWithin(i, s.end);
  }

  /** `SLABTYPE`: the class `mm_free` takes an address to belong to. */
  function SlabType(addr: nat): nat {
    addr / 0x10_0000_0000 % 0x1_0000
  }

  /** It is far off the class of any chunk in use, so that the assertion of `mm_free` on it stops every call that is meant to work. */
  lemma FreeStops(slabs: seq<Slab>, tree: seq<Node>, locked: set<nat>, i: nat, x: nat)
    requires Sound(slabs, tree, locked) && i < SLAB_MAX && x in slabs[i].handed
    ensures SlabType(x) == 0xf800 + i && !(SlabType(x) < SLAB_MAX)
  {
    InUse(slabs, tree, locked, i, x);
    Above(slabs, tree, locked, i, x);
    hide Sound, SlabSize, Writable;
    var d := x - (0xffff_8000_0000_0000 + i * 0x10_0000_0000);
    assert x == (0xffff_800 + i) * 0x10_0000_0000 + d;
    assert d < 0x10_0000_0000 by { assert SlabSize(i) > 0; }
    assert x / 0x10_0000_0000 == 0xffff_800 + i;
  }

  lemma EndsWithin(kind: nat, end: nat)
    requires SlabBase(kind) <= end && Extent(SlabBase(kind), end) <= SLAB_PAGES
    ensures end <= SlabBase(kind + 1)
  {
  }

  /** Different chunks in use have no byte in common, whichever slabs they come from. */
  lemma InUseApart(slabs: seq<Slab>, tree: seq<Node>, locked: set<nat>, i: nat, x: nat, j: nat, y: nat)
    requires Sound(slabs, tree, locked) && i < SLAB_MAX && j < SLAB_MAX && x in slabs[i].handed && y in slabs[j].handed
    requires i != j || x != y
    ensures x + SlabSize(i) <= y || y + SlabSize(j) <= x
  {
    hide SlabSize, Writable;
    InUse(slabs, tree, locked, i, x);
    InUse(slabs, tree, locked, j, y);
    if i == j {
      InOneSlab(slabs[i], tree, x, y);
    } else {
      Above(slabs, tree, locked, i, x);
      Above(slabs, tree, locked, j, y);
    }
  }

  lemma InOneSlab(s: Slab, tree: seq<Node>, x: nat, y: nat)
    requires Ready(s, tree) && x in s.handed && y in s.handed && x != y
    ensures x + SlabSize(s.kind) <= y || y + SlabSize(s.kind) <= x
  {
    hide SlabSize, Backs;
    ChunksDisjoint(s.start, SlabSize(s.kind), s.count, x, y);
  }

  lemma Above(slabs: seq<Slab>, tree: seq<Node>, locked: set<nat>, i: nat, x: nat)
    requires Sound(slabs, tree, locked) && i < SLAB_MAX && x in slabs[i].handed
    ensures SlabBase(i) <= x
  {
    hide SlabSize, Backs;
    ChunkBelow(slabs[i].start, SlabSize(i), slabs[i].count, x);
  }

  /** Where byte `b` past an address lies in physical memory. */
  ghost function PhysicalOf(tree: seq<Node>, addr: nat, b: nat): nat
    requires Writable(tree, addr, b)
  {
    View(tree, PageOf(addr + b)).entry.frame * PAGE_SIZE + PageOffset(addr + b)
  }

  /** Nor do they have one in physical memory, and no other mapping leads to it. */
  lemma InUsePhysicallyApart(slabs: seq<Slab>, tree: seq<Node>, locked: set<nat>, i: nat, x: nat, b: nat, j: nat, y: nat, c: nat)
    requires Sound(slabs, tree, locked) && i < SLAB_MAX && j < SLAB_MAX && x in slabs[i].handed && y in slabs[j].handed
    requires (i != j || x != y) && b < SlabSize(i) && c < SlabSize(j) && Writable(tree, x, b) && Writable(tree, y, c)
    ensures PhysicalOf(tree, x, b) != PhysicalOf(tree, y, c)
  {
    hide SlabSize;
    InUseApart(slabs, tree, locked, i, x, j, y);
    Above(slabs, tree, locked, i, x);
    Above(slabs, tree, locked, j, y);
    InUse(slabs, tree, locked, i, x);
    InUse(slabs, tree, locked, j, y);
    BytesApart(tree, x, b, y, c, i, j);
  }

  lemma BytesApart(tree: seq<Node>, x: nat, b: nat, y: nat, c: nat, i: nat, j: nat)
    requires Private(tree) && i < SLAB_MAX && j < SLAB_MAX && x + b != y + c && Writable(tree, x, b) && Writable(tree, y, c)
    requires SlabBase(i) <= x + b < SlabBase(i + 1) && SlabBase(j) <= y + c < SlabBase(j + 1)
    ensures PhysicalOf(tree, x, b) != PhysicalOf(tree, y, c)
  {
    HeapAddress(x + b, i);
    HeapAddress(y + c, j);
    var v, w := PageOf(x + b), PageOf(y + c);
    hide View, PageOf;
    if v != w {
      assert View(tree, v).entry.frame != View(tree, w).entry.frame;
    }
  }

  lemma HeapAddress(a: nat, i: nat)
    requires i < SLAB_MAX && SlabBase(i) <= a < SlabBase(i + 1)
    ensures InHeap(PageOf(a)) && a == KERNEL_START + (PageOf(a) - PAGE_LIMIT / 2) * PAGE_SIZE + PageOffset(a)
  {
    KernelPage(a);
    var d := a - KERNEL_START;
    assert d == d / PAGE_SIZE * PAGE_SIZE + d % PAGE_SIZE && a % PAGE_SIZE == d % PAGE_SIZE;
    assert d < SLAB_MAX * SLAB_BYTES;
  }
}
