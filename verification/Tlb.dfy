/** Cached translations: when each of them agrees with the page tree, and what keeps it so. */
module Tlb {
  import opened Paging
  import opened PageTree
  import opened PageMap
  import opened PageFlag
  import opened PageUnmap
  import opened PageOrder
  import opened PageView

  /** A cache that is filled on access, from pages to frames. */
  type Cache = map<nat, nat>

  ghost predicate Agrees(s: Seen, frame: nat) {
    match s
    case Outside => true
    case Unmapped => false
    case Mapped(e) => e.frame == frame
  }

  /** Every cached translation of a page the tree speaks of is the one in the tree. */
  ghost predicate Coherent(tree: seq<Node>, tlb: Cache) {
    forall v | v in tlb :: v < PAGE_LIMIT && Agrees(View(tree, v), tlb[v])
  }

  /** What is left of a cache once some pages have been invalidated. */
  function Forget(t: Cache, flushed: seq<nat>): Cache {
    map v | v in t && v !in flushed :: t[v]
  }

  lemma ForgetOne(t: Cache, flushed: seq<nat>, page: nat)
    ensures Forget(t, flushed) - {page} == Forget(t, flushed + [page])
  {
  }

  /** The processor's walk of a page in the tree finds the cached frame. */
  lemma CachedWalk(m: Memory, spine: set<nat>, root: nat, tree: seq<Node>, tlb: Cache, v: nat)
    requires Tree(m, spine, root, tree, 0) && Coherent(tree, tlb) && v in tlb && !View(tree, v).Outside?
    ensures Walk(m, root, PathOf(v)).Reached? && Walk(m, root, PathOf(v)).frame == tlb[v]
  {
    PathIs(v);
    WalkAgrees(m, spine, root, tree, 0, PathOf(v));
  }

  /** What mapping `pages` pages from the indices of `page` on does, as a function on trees. */
  ghost function Mapping(tree: seq<Node>, locked: set<nat>, page: nat, pages: nat, frame: nat, flags: Flags): (seq<Node>, Run) {
    MapFrom(tree, 0, Indices(page), Indices(page)[0], Run(locked, frame, pages, false), flags)
  }

  /** Nothing is cached for the unmapped pages that are filled, so mapping needs no invalidation, for any run. */
  lemma MapCoherent(tree: seq<Node>, tlb: Cache, locked: set<nat>, page: nat, pages: nat, frame: nat, flags: Flags)
    requires Shaped(tree, 0) && Coherent(tree, tlb) && !Mapping(tree, locked, page, pages, frame, flags).1.lost
    ensures Coherent(Mapping(tree, locked, page, pages, frame, flags).0, tlb)
  {
    hide MapFrom, Indices, PathOf, Vacant;
    var idx, run := Indices(page), Run(locked, frame, pages, false);
    var tree', slots := Mapping(tree, locked, page, pages, frame, flags).0, Vacant(tree, 0, idx, idx[0]);
    MapWrites(tree, 0, idx, idx[0], run, flags);
    var first := slots[..Min(pages, |slots|)];
    forall v | v in tlb
      ensures v < PAGE_LIMIT && Agrees(View(tree', v), tlb[v])
    {
      assert Agrees(View(tree, v), tlb[v]);
      PathIs(v);
      VacantExact(tree, 0, idx, idx[0], PathOf(v));
      assert PathOf(v) !in slots;
      NotFirst(slots, Min(pages, |slots|), PathOf(v));
    }
  }

  lemma NotFirst(slots: seq<Path>, n: nat, p: Path)
    requires n <= |slots| && p !in slots
    ensures p !in slots[..n]
  {
  }

  /** Re-flagging changes no translation, whatever its outcome. */
  lemma FlagCoherent(tree: seq<Node>, tlb: Cache, idx: seq<nat>, i: nat, run: FlagRun, flags: Flags)
    requires |idx| == 4 && Coherent(tree, tlb)
    ensures Coherent(FlagFrom(tree, 0, idx, i, run, flags).0, tlb)
  {
    hide FlagFrom;
    forall v | v in tlb
      ensures v < PAGE_LIMIT && Agrees(View(FlagFrom(tree, 0, idx, i, run, flags).0, v), tlb[v])
    {
      FlagTranslates(tree, 0, idx, i, run, flags, PathOf(v));
    }
  }

  /** The pages invalidated by an unmapping are enough to keep the cache coherent, for any run. */
  lemma UnmapCoherent(tree: seq<Node>, tlb: Cache, page: nat, pages: nat)
    requires Shaped(tree, 0) && Coherent(tree, tlb) && page < PAGE_LIMIT
    requires !UnmapFrom(tree, 0, UnmapRun(Indices(page), page, 0, [], false), pages).1.lost
    ensures var (tree', run') := UnmapFrom(tree, 0, UnmapRun(Indices(page), page, 0, [], false), pages);
            Coherent(tree', Forget(tlb, run'.flushed))
  {
    hide UnmapFrom, Indices, PathOf;
    var run := UnmapRun(Indices(page), page, 0, [], false);
    var (tree', run') := UnmapFrom(tree, 0, run, pages);
    var extra := UnmapClears(tree, 0, run, pages);
    forall v | v in Forget(tlb, run'.flushed)
      ensures v < PAGE_LIMIT && Agrees(View(tree', v), tlb[v])
    {
      PathIs(v);
      PathIs(page);
      OffsetOf(v);
      OffsetOf(page);
      assert PageAt(run, 0, PathOf(v)) == v;
    }
  }

  /** Giving a page another frame keeps the cache coherent exactly if it holds no older translation of the page. */
  lemma BackCoherent(tree: seq<Node>, tlb: Cache, page: nat, frame: Frame)
    requires Shaped(tree, 0) && Coherent(tree, tlb) && page < PAGE_LIMIT && !View(tree, page).Outside?
    ensures Coherent(Back(tree, Indices(page), 0, frame), tlb) <==> (page in tlb ==> tlb[page] == frame)
  {
    hide Back, Indices, PathOf;
    var tree' := Back(tree, Indices(page), 0, frame);
    forall v | v in tlb
      ensures v != page ==> View(tree', v) == View(tree, v)
    {
      BackView(tree, page, frame, v);
    }
    BackView(tree, page, frame, page);
    assert page in tlb ==> Agrees(View(tree, page), tlb[page]);
    assert Agrees(View(tree', page), frame) || View(tree', page) == Unmapped;
  }

  lemma BackView(tree: seq<Node>, page: nat, frame: Frame, v: nat)
    requires Shaped(tree, 0) && page < PAGE_LIMIT && v < PAGE_LIMIT
    ensures var tree' := Back(tree, Indices(page), 0, frame);
            && Shaped(tree', 0)
            && (v != page ==> View(tree', v) == View(tree, v) && Rights(tree', v) == Rights(tree, v))
            && View(tree', page) == (match View(tree, page) case Mapped(e) => Mapped(e.(frame := frame)) case s => s)
            && Rights(tree', page) == (match Rights(tree, page) case Reached(_, w, u, x) => Reached(frame, w, u, x) case Fault => Fault)
  {
    hide Back, Indices, PathOf;
    PathIs(page);
    OffsetOf(v);
    OffsetOf(page);
    BackWrites(tree, Indices(page), 0, frame, PathOf(v));
  }

  // ---- Runs ----------------------------------------------------------------------------------

  /** The tree and what is cached of it; the window's own table and what is cached of its slots. */
  datatype State = State(tree: seq<Node>, tlb: Cache, window: Table, slots: Cache)

  /** The steps a kernel can take: the operations on pages, those on the window, and accesses that fill the caches. */
  datatype Step =
    | Map(locked: set<nat>, page: nat, pages: nat, frame: nat, flags: Flags)
    | Unmap(page: nat, pages: nat)
    | Flag(page: nat, pages: nat, flags: Flags)
    | SetBacking(page: nat, backing: Frame)
    | Touch(page: nat)
    | MapTmp(slot: nat, frame: nat)
    | UnmapTmp(slot: nat)
    | TouchTmp(slot: nat)

  /** What each step does. Only unmapping invalidates anything, and a page with a cached translation gets no other frame. */
  ghost predicate Leads(s: State, step: Step, s': State) {
    Shaped(s.tree, 0) &&
    match step
    case Map(locked, page, pages, frame, flags) =>
      var run := Mapping(s.tree, locked, page, pages, frame, flags);
      !run.1.lost && s' == s.(tree := run.0)
    case Unmap(page, pages) =>
      page < PAGE_LIMIT &&
      var run := UnmapFrom(s.tree, 0, UnmapRun(Indices(page), page, 0, [], false), pages);
      !run.1.lost && s' == s.(tree := run.0, tlb := Forget(s.tlb, run.1.flushed))
    case Flag(page, pages, flags) =>
      s' == s.(tree := FlagFrom(s.tree, 0, Indices(page), Indices(page)[0], FlagRun(pages, false, false), flags).0)
    case SetBacking(page, backing) =>
      && page < PAGE_LIMIT && !View(s.tree, page).Outside? && (page in s.tlb ==> s.tlb[page] == backing)
      && s' == s.(tree := Back(s.tree, Indices(page), 0, backing))
    case Touch(page) =>
      page < PAGE_LIMIT && s' == (match View(s.tree, page) case Mapped(e) => s.(tlb := s.tlb[page := e.frame]) case _ => s)
    case MapTmp(slot, frame) =>
      slot < PT_LENGTH && s.window[slot] == BLANK && s' == s.(window := s.window[slot := SetPte(frame, WRITE_ONLY)])
    case UnmapTmp(slot) =>
      slot < PT_LENGTH && s' == s.(window := s.window[slot := BLANK], slots := s.slots - {slot})
    case TouchTmp(slot) =>
      slot < PT_LENGTH && s.window[slot].present && s' == s.(slots := s.slots[slot := s.window[slot].frame])
  }

  /** Every cached translation is the one in the tree, or in the window's table. */
  ghost predicate AllCoherent(s: State) {
    Coherent(s.tree, s.tlb) && forall k | k in s.slots :: k < PT_LENGTH && s.window[k].present && s.slots[k] == s.window[k].frame
  }

  /** A run: each state leads to the next. */
  ghost predicate IsRun(states: seq<State>, steps: seq<Step>) {
    |states| == |steps| + 1 && forall i | 0 <= i < |steps| :: Leads(states[i], steps[i], states[i + 1])
  }

  lemma StepCoherent(s: State, step: Step, s': State)
    requires AllCoherent(s) && Leads(s, step, s')
    ensures AllCoherent(s')
  {
    hide UnmapFrom, FlagFrom, Mapping, View, Shaped;
    match step
    case Map(locked, page, pages, frame, flags) =>
      MapCoherent(s.tree, s.tlb, locked, page, pages, frame, flags);
    case Unmap(page, pages) =>
      UnmapCoherent(s.tree, s.tlb, page, pages);
    case Flag(page, pages, flags) =>
      FlagCoherent(s.tree, s.tlb, Indices(page), Indices(page)[0], FlagRun(pages, false, false), flags);
    case SetBacking(page, backing) =>
      BackCoherent(s.tree, s.tlb, page, backing);
    case _ =>
  }

  /** In every state of every run that starts with empty caches, each cached translation is the right one. */
  lemma {:induction false} RunsCoherent(states: seq<State>, steps: seq<Step>, n: nat)
    requires IsRun(states, steps) && n < |states| && states[0].tlb == map[] && states[0].slots == map[]
    ensures AllCoherent(states[n])
    decreases n
  {
    if n > 0 {
      RunsCoherent(states, steps, n - 1);
      StepCoherent(states[n - 1], steps[n - 1], states[n]);
    }
  }
}
