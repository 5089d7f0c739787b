/** Mapping runs that cross leaf tables: as long as a run is straight, it is a range of consecutive pages. */
module PageStraight {
  import opened FrameSet
  import opened Paging
  import opened PageTree
  import opened PageMap
  import opened PageFlag
  import opened PageUnmap
  import opened PageSearch
  import opened PageOrder
  import opened PageView

  // ---- The first slots, if they are absent, are the ones filled ---------------------------------

  /** The first `n` slots are all absent. */
  ghost predicate Absent(kids: seq<Node>, slots: seq<Path>, n: nat)
    requires n <= |slots|
  {
    forall k | 0 <= k < n :: Lookup(kids, slots[k]) == Unmapped
  }

  lemma {:induction false} VacantShort(kids: seq<Node>, level: nat, idx: seq<nat>, i: nat)
    requires level <= PT_LAST_LEVEL && |idx| == 4 && Shaped(kids, level)
    ensures |Vacant(kids, level, idx, i)| <= |Slots(level, idx, i)|
    decreases PT_LAST_LEVEL - level, |kids| - i
  {
    if i < |kids| {
      hide Slots, SlotsIn;
      SlotsStep(level, idx, i);
      VacantShort(kids, level, idx, i + 1);
      VacantStep(kids, level, idx, i);
      hide Vacant, VacantIn;
      assert ShapedIn(kids[i], level);
      if kids[i].Branch? {
        VacantShort(kids[i].kids, level + 1, idx, idx[level + 1]);
      }
    }
  }

  lemma VacantStep(kids: seq<Node>, level: nat, idx: seq<nat>, i: nat)
    requires level <= PT_LAST_LEVEL && |idx| == 4 && Shaped(kids, level) && i < |kids|
    ensures Vacant(kids, level, idx, i) == Prepend(i, VacantIn(kids[i], level, idx)) + Vacant(kids, level, idx, i + 1)
    ensures VacantIn(kids[i], level, idx) ==
              match kids[i]
              case Branch(_, sub) => Vacant(sub, level + 1, idx, idx[level + 1])
              case Hole => SlotsIn(level, idx)
              case _ => []
  {
    assert ShapedIn(kids[i], level);
  }

  /** Mapping keeps tables on their levels. */
  lemma {:induction false} MapShaped(kids: seq<Node>, level: nat, idx: seq<nat>, i: nat, run: Run, flags: Flags)
    requires level <= PT_LAST_LEVEL && |idx| == 4 && Shaped(kids, level)
    ensures Shaped(MapFrom(kids, level, idx, i, run, flags).0, level)
    decreases PT_LAST_LEVEL - level, |kids| - i, 1
  {
    if i < |kids| && run.pages > 0 {
      MapEntryShaped(kids[i], level, idx, run, flags);
      var (e, run1) := MapEntry(kids[i], level, idx, run, flags);
      MapFromStep(kids, level, idx, i, run, flags);
      hide MapFrom, MapEntry;
      MapShaped(kids[i := e], level, idx, i + 1, run1, flags);
    }
  }

  lemma {:induction false} MapEntryShaped(e: Node, level: nat, idx: seq<nat>, run: Run, flags: Flags)
    requires level <= PT_LAST_LEVEL && |idx| == 4 && ShapedIn(e, level) && run.pages > 0
    ensures ShapedIn(MapEntry(e, level, idx, run, flags).0, level)
    decreases PT_LAST_LEVEL - level, 0
  {
    if level < PT_LAST_LEVEL {
      match e
      case Hole =>
        MapShaped(NoKids(), level + 1, idx, idx[level + 1], run.(locked := run.locked + {LeastFree(run.locked)}), flags);
      case Branch(_, kids) =>
        MapShaped(kids, level + 1, idx, idx[level + 1], run, flags);
      case _ =>
    }
  }

  /** Slots below entry `i` and later ones, apart. */
  lemma AbsentParts(kids: seq<Node>, i: nat, sub: seq<Path>, more: seq<Path>, n: nat)
    requires i < |kids| && n <= |sub| + |more| && Absent(kids, Prepend(i, sub) + more, n)
    ensures forall k | 0 <= k < Min(n, |sub|) :: LookupIn(kids[i], sub[k]) == Unmapped
    ensures n > |sub| ==> Absent(kids, more, n - |sub|)
  {
    var all := Prepend(i, sub) + more;
    forall k | 0 <= k < Min(n, |sub|)
      ensures LookupIn(kids[i], sub[k]) == Unmapped
    {
      assert all[k] == At(i, sub[k]) && Lookup(kids, all[k]) == Unmapped;
    }
    if n > |sub| {
      forall k | 0 <= k < n - |sub|
        ensures Lookup(kids, more[k]) == Unmapped
      {
        assert all[|sub| + k] == more[k];
      }
    }
  }

  /** Then the list of absent slots begins with them. */
  lemma {:induction false} AbsentFirst(kids: seq<Node>, level: nat, idx: seq<nat>, i: nat, n: nat)
    requires level <= PT_LAST_LEVEL && InBounds(idx) && Shaped(kids, level) && i <= PT_LENGTH
    requires n <= |Slots(level, idx, i)| && Absent(kids, Slots(level, idx, i), n)
    ensures n <= |Vacant(kids, level, idx, i)| && Vacant(kids, level, idx, i)[..n] == Slots(level, idx, i)[..n]
    decreases PT_LAST_LEVEL - level, PT_LENGTH - i, 1
  {
    if i < PT_LENGTH && n > 0 {
      hide Slots, SlotsIn, Absent;
      SlotsStep(level, idx, i);
      var here, sub, more := VacantIn(kids[i], level, idx), SlotsIn(level, idx), Slots(level, idx, i + 1);
      AbsentParts(kids, i, sub, more, n);
      AbsentFirstIn(kids[i], level, idx, Min(n, |sub|));
      VacantStep(kids, level, idx, i);
      hide Vacant, VacantIn;
      if n > |sub| {
        AbsentFirst(kids, level, idx, i + 1, n - |sub|);
      }
      FirstJoin(i, here, sub, Vacant(kids, level, idx, i + 1), more, n);
    }
  }

  lemma FirstJoin(i: nat, here: seq<Path>, sub: seq<Path>, rest: seq<Path>, more: seq<Path>, n: nat)
    requires n <= |sub| + |more| && Min(n, |sub|) <= |here| <= |sub| && here[..Min(n, |sub|)] == sub[..Min(n, |sub|)]
    requires n > |sub| ==> n - |sub| <= |rest| && rest[..n - |sub|] == more[..n - |sub|]
    ensures n <= |here| + |rest| && (Prepend(i, here) + rest)[..n] == (Prepend(i, sub) + more)[..n]
  {
    if n > |sub| {
      assert here == sub;
      assert (Prepend(i, here) + rest)[..n] == Prepend(i, here) + rest[..n - |sub|];
      assert (Prepend(i, sub) + more)[..n] == Prepend(i, sub) + more[..n - |sub|];
    } else {
      assert (Prepend(i, here) + rest)[..n] == Prepend(i, here[..n]);
      assert (Prepend(i, sub) + more)[..n] == Prepend(i, sub[..n]);
    }
  }

  lemma {:induction false} AbsentFirstIn(e: Node, level: nat, idx: seq<nat>, n: nat)
    requires level <= PT_LAST_LEVEL && InBounds(idx) && ShapedIn(e, level) && n <= |SlotsIn(level, idx)|
    requires forall k | 0 <= k < n :: LookupIn(e, SlotsIn(level, idx)[k]) == Unmapped
    ensures n <= |VacantIn(e, level, idx)| <= |SlotsIn(level, idx)| && VacantIn(e, level, idx)[..n] == SlotsIn(level, idx)[..n]
    ensures n > 0 ==> e.Hole? || e.Branch?
    decreases PT_LAST_LEVEL - level, 0
  {
    if level < PT_LAST_LEVEL && n > 0 {
      assert LookupIn(e, SlotsIn(level, idx)[0]) == Unmapped;
      if e.Branch? {
        VacantShort(e.kids, level + 1, idx, idx[level + 1]);
        AbsentFirst(e.kids, level + 1, idx, idx[level + 1], n);
      }
    } else if level < PT_LAST_LEVEL && e.Branch? {
      VacantShort(e.kids, level + 1, idx, idx[level + 1]);
    } else if n > 0 {
      assert LookupIn(e, SlotsIn(level, idx)[0]) == Unmapped;
    }
  }

  /** Mapping no more pages than these meets no foreign entry. */
  lemma {:induction false} NotLost(kids: seq<Node>, level: nat, idx: seq<nat>, i: nat, run: Run, flags: Flags)
    requires level <= PT_LAST_LEVEL && InBounds(idx) && Shaped(kids, level) && i <= PT_LENGTH && !run.lost
    requires Absent(kids, Slots(level, idx, i), Min(run.pages, |Slots(level, idx, i)|))
    ensures !MapFrom(kids, level, idx, i, run, flags).1.lost
    decreases PT_LAST_LEVEL - level, PT_LENGTH - i, 1
  {
    if i < PT_LENGTH && run.pages > 0 {
      hide Slots, SlotsIn, Absent, MapFrom, MapEntry, Vacant, VacantIn;
      SlotsStep(level, idx, i);
      MapFromStep(kids, level, idx, i, run, flags);
      var sub, more := SlotsIn(level, idx), Slots(level, idx, i + 1);
      AbsentParts(kids, i, sub, more, Min(run.pages, |sub| + |more|));
      NotLostIn(kids[i], level, idx, run, flags);
      var (e, run1) := MapEntry(kids[i], level, idx, run, flags);
      if run.pages > |sub| {
        AbsentLater(kids, i, e, level, idx, run.pages - |sub|);
        NotLost(kids[i := e], level, idx, i + 1, run1, flags);
      } else {
        MapFromEnd(kids[i := e], level, idx, i + 1, run1, flags);
      }
    } else {
      MapFromEnd(kids, level, idx, i, run, flags);
    }
  }

  /** Later slots do not see what is entered at `i`. */
  lemma AbsentLater(kids: seq<Node>, i: nat, e: Node, level: nat, idx: seq<nat>, n: nat)
    requires level <= PT_LAST_LEVEL && |idx| == 4 && i < |kids|
    requires Absent(kids, Slots(level, idx, i + 1), Min(n, |Slots(level, idx, i + 1)|))
    ensures Absent(kids[i := e], Slots(level, idx, i + 1), Min(n, |Slots(level, idx, i + 1)|))
  {
    VacantFrom(NoKids(), level, idx, i + 1);
    var more := Slots(level, idx, i + 1);
    forall k | 0 <= k < Min(n, |more|)
      ensures Lookup(kids[i := e], more[k]) == Unmapped
    {
      assert more[k] in more;
    }
  }

  lemma {:induction false} NotLostIn(e: Node, level: nat, idx: seq<nat>, run: Run, flags: Flags)
    requires level <= PT_LAST_LEVEL && InBounds(idx) && ShapedIn(e, level) && run.pages > 0 && !run.lost
    requires forall k | 0 <= k < Min(run.pages, |SlotsIn(level, idx)|) :: LookupIn(e, SlotsIn(level, idx)[k]) == Unmapped
    ensures var (e', run') := MapEntry(e, level, idx, run, flags);
            !run'.lost && run'.pages == run.pages - Min(run.pages, |SlotsIn(level, idx)|) && ShapedIn(e', level)
    decreases PT_LAST_LEVEL - level, 0
  {
    MapEntryShaped(e, level, idx, run, flags);
    var sub := SlotsIn(level, idx);
    if level == PT_LAST_LEVEL {
      assert LookupIn(e, sub[0]) == Unmapped;
    } else {
      Ends(level + 1, idx, idx[level + 1]);
      assert LookupIn(e, sub[0]) == Unmapped;
      var kids := if e.Branch? then e.kids else NoKids();
      var run1 := if e.Branch? then run else run.(locked := run.locked + {LeastFree(run.locked)});
      MapEntryThrough(e, level, idx, run, flags, kids, run1);
      BelowAbsent(e, kids, level, idx, Min(run.pages, |sub|));
      hide Slots, SlotsIn, MapFrom, MapEntry, Vacant, VacantIn, Absent;
      NotLost(kids, level + 1, idx, idx[level + 1], run1, flags);
      MapWrites(kids, level + 1, idx, idx[level + 1], run1, flags);
      AbsentFirst(kids, level + 1, idx, idx[level + 1], Min(run.pages, |sub|));
      VacantShort(kids, level + 1, idx, idx[level + 1]);
    }
  }

  lemma MapEntryThrough(e: Node, level: nat, idx: seq<nat>, run: Run, flags: Flags, kids: seq<Node>, run1: Run)
    requires level < PT_LAST_LEVEL && |idx| == 4 && (e.Hole? || e.Branch?) && run.pages > 0 && ShapedIn(e, level)
    requires kids == if e.Branch? then e.kids else NoKids()
    requires run1 == if e.Branch? then run else run.(locked := run.locked + {LeastFree(run.locked)})
    ensures MapEntry(e, level, idx, run, flags).1 == MapFrom(kids, level + 1, idx, idx[level + 1], run1, flags).1
    ensures Shaped(kids, level + 1) && SlotsIn(level, idx) == Slots(level + 1, idx, idx[level + 1])
  {
  }

  lemma BelowAbsent(e: Node, kids: seq<Node>, level: nat, idx: seq<nat>, n: nat)
    requires level < PT_LAST_LEVEL && InBounds(idx) && (e.Hole? || e.Branch?) && n <= |SlotsIn(level, idx)|
    requires kids == if e.Branch? then e.kids else NoKids()
    requires forall k | 0 <= k < n :: LookupIn(e, SlotsIn(level, idx)[k]) == Unmapped
    ensures Absent(kids, SlotsIn(level, idx), n)
  {
    var sub := SlotsIn(level, idx);
    forall k | 0 <= k < n
      ensures Lookup(kids, sub[k]) == Unmapped
    {
      assert sub[k] in Slots(level + 1, idx, idx[level + 1]);
      VacantFrom(NoKids(), level + 1, idx, idx[level + 1]);
      assert LookupIn(e, sub[k]) == Unmapped;
    }
  }

  // ---- Straight ranges -----------------------------------------------------------------------

  /** A run of pages that leaves no leaf or upper table it has entered in the middle. */
  predicate StraightRange(page: nat, pages: nat) {
    0 < pages && page + pages <= PAGE_LIMIT && Straight(Indices(page), 0, pages)
  }

  /** Within one leaf table every run is straight. */
  lemma OneTableStraight(page: nat, pages: nat)
    requires OneTable(page, pages)
    ensures StraightRange(page, pages)
  {
    TableEnds(page, pages);
    var idx := Indices(page);
    assert pages <= PT_LENGTH - idx[3];
    hide Indices;
    assert SlotCount(idx, 3) == PT_LENGTH - idx[3] by { assert SlotCount(idx, 4) == 1; }
    CountGrows(idx, 2);
    CountGrows(idx, 1);
  }

  lemma CountGrows(idx: seq<nat>, level: nat)
    requires InBounds(idx) && level < 4
    ensures 0 < SlotCount(idx, level + 1) <= SlotCount(idx, level)
    decreases 4 - level
  {
    if level < 3 {
      CountGrows(idx, level + 1);
    }
    Product(0, PT_LENGTH - idx[level], SlotCount(idx, level + 1));
  }

  /** The slots of a straight run are the pages of the range, and there are enough of them. */
  lemma SlotsArePages(page: nat, pages: nat)
    requires StraightRange(page, pages)
    ensures var s := Slots(0, Indices(page), Indices(page)[0]);
            pages <= |s| && forall k: nat | k < pages :: s[k] == PathOf(page + k)
  {
    hide PagesPerEntry, Vacant, VacantIn, Slots, SlotsIn, PathOf, SlotCount, Offset;
    var idx := Indices(page);
    assert InBounds(idx);
    var s := Slots(0, idx, idx[0]);
    FirstLast(page);
    hide Indices;
    SlotsCounted(0, idx, idx[0]);
    EnoughSlots(page, pages, idx, s);
    StraightConsecutive(0, idx, idx[0], pages);
    forall k: nat | k < pages
      ensures s[k] == PathOf(page + k)
    {
      assert Offset(s[k], 0) == page + k;
      SlotIsPath(idx, s[k]);
      var v := PathHasPage(s[k]);
      OffsetOf(v);
    }
  }

  lemma SlotIsPath(idx: seq<nat>, p: Path)
    requires InBounds(idx) && p in Slots(0, idx, idx[0])
    ensures IsPath(p, 4)
  {
    BlankShaped(0);
    VacantExact(NoKids(), 0, idx, idx[0], p);
  }

  lemma BlankShaped(level: nat)
    requires level <= PT_LAST_LEVEL
    ensures Shaped(NoKids(), level)
  {
  }

  lemma FirstLast(page: nat)
    requires page < PAGE_LIMIT
    ensures var s := Slots(0, Indices(page), Indices(page)[0]);
            |s| > 0 && Offset(s[0], 0) == page && Offset(s[|s| - 1], 0) == PAGE_LIMIT - 1
  {
    hide PagesPerEntry, Vacant, VacantIn, Slots, SlotsIn;
    var idx := Indices(page);
    Ends(0, idx, idx[0]);
    PathIs(page);
    OffsetOf(page);
    PerEntry();
    assert Offset(PathFrom(idx, 0), 0) == idx[0] * PagesPerEntry(0) + Offset(PathFrom(idx, 1), 1);
  }

  lemma EnoughSlots(page: nat, pages: nat, idx: seq<nat>, s: seq<Path>)
    requires InBounds(idx) && 0 < pages && page + pages <= PAGE_LIMIT && Straight(idx, 0, pages)
    requires s == Slots(0, idx, idx[0]) && |s| > 0 && Offset(s[0], 0) == page && Offset(s[|s| - 1], 0) == PAGE_LIMIT - 1
    ensures pages <= |s|
  {
    hide PagesPerEntry, Vacant, VacantIn, Slots, SlotsIn, SlotCount, Offset;
    var m := Min(pages, |s|);
    SlotsCounted(0, idx, idx[0]);
    StraightConsecutive(0, idx, idx[0], m);
    assert Offset(s[m - 1], 0) == Offset(s[0], 0) + (m - 1);
  }

  /** Mapping a free straight range maps page k of it to frame k with exactly the requested rights, and nothing else. */
  lemma MapStraight(tree: seq<Node>, locked: set<nat>, page: nat, pages: nat, frame: nat, flags: Flags)
    requires Shaped(tree, 0) && StraightRange(page, pages) && RangeFree(tree, page, pages)
    ensures var (tree', run') := MapFrom(tree, 0, Indices(page), Indices(page)[0], Run(locked, frame, pages, false), flags);
            !run'.lost && run'.pages == 0 && locked <= run'.locked && MapsRange(tree, tree', page, pages, frame, flags)
  {
    hide Vacant, VacantIn, Slots, SlotsIn, PathOf, SlotCount, MapFrom, Straight, MapsRange;
    var idx, run := Indices(page), Run(locked, frame, pages, false);
    assert InBounds(idx);
    SlotsArePages(page, pages);
    var s, v := Slots(0, idx, idx[0]), Vacant(tree, 0, idx, idx[0]);
    hide Indices;
    assert Absent(tree, s, pages) by {
      forall k: nat | k < pages ensures Lookup(tree, s[k]) == Unmapped { assert View(tree, page + k) == Unmapped; }
    }
    AbsentFirst(tree, 0, idx, idx[0], pages);
    NotLost(tree, 0, idx, idx[0], run, flags);
    MapKeeps(tree, 0, idx, idx[0], run, flags);
    MapWrites(tree, 0, idx, idx[0], run, flags);
    WritesRange(tree, MapFrom(tree, 0, idx, idx[0], run, flags).0, page, pages, frame, flags, s[..pages]);
  }

  lemma WritesRange(tree: seq<Node>, tree': seq<Node>, page: nat, pages: nat, frame: nat, flags: Flags, slots: seq<Path>)
    requires page + pages <= PAGE_LIMIT && |slots| == pages && forall k: nat | k < pages :: slots[k] == PathOf(page + k)
    requires Written(tree, tree', 4, slots, Ptes(frame, pages, flags))
    ensures MapsRange(tree, tree', page, pages, frame, flags)
  {
    hide PathOf, Lookup, Reach;
    forall v: nat | v < PAGE_LIMIT
      ensures View(tree', v) == if page <= v < page + pages then Mapped(SetPte(frame + (v - page), flags)) else View(tree, v)
      ensures page <= v < page + pages ==> Rights(tree', v) == Granted(SetPte(frame + (v - page), flags))
    {
      if page <= v < page + pages {
        assert slots[v - page] == PathOf(page + (v - page));
      } else {
        PathIs(v);
        OffsetOf(v);
        forall k: nat | k < pages ensures slots[k] != PathOf(v) { OffsetOf(page + k); }
      }
    }
  }

  // ---- Where a search finds room --------------------------------------------------------------

  lemma {:induction false} RoomBounds(kids: seq<Node>, i: nat, need: int, perEntry: nat)
    requires perEntry > 0 && i <= |kids| && Room(kids, i, need, perEntry)
    ensures need <= (|kids| - i) * perEntry
    decreases need
  {
    if need > 0 {
      RoomBounds(kids, i + 1, need - perEntry, perEntry);
      assert (|kids| - i) * perEntry == (|kids| - (i + 1)) * perEntry + perEntry;
    }
  }

  lemma {:induction false} FitsBounds(kids: seq<Node>, level: nat, idx: seq<nat>, n: nat)
    requires level <= PT_LAST_LEVEL && InBounds(idx) && Shaped(kids, level) && Fits(kids, level, idx, n)
    ensures n <= (PT_LENGTH - idx[level]) * PagesPerEntry(level)
    decreases PT_LAST_LEVEL - level
  {
    var i := idx[level];
    if level < PT_LAST_LEVEL && kids[i].Branch? {
      assert ShapedIn(kids[i], level);
      FitsBounds(kids[i].kids, level + 1, idx, n);
      EntryPages(level);
      hide PagesPerEntry;
      var x := PagesPerEntry(level + 1);
      Product(0, PT_LENGTH - i, PagesPerEntry(level));
      assert (PT_LENGTH - idx[level + 1]) * x <= PT_LENGTH * x;
    } else {
      RoomBounds(kids, i, n, PagesPerEntry(level));
    }
  }

  /** Absent entries make absent slots, if the run is within one of them or begins at its first page. */
  lemma {:induction false} RoomAbsent(kids: seq<Node>, level: nat, idx: seq<nat>, i: nat, n: nat)
    requires level <= PT_LAST_LEVEL && InBounds(idx) && Shaped(kids, level) && i <= PT_LENGTH
    requires Room(kids, i, n, PagesPerEntry(level)) && n <= |Slots(level, idx, i)|
    requires n <= |SlotsIn(level, idx)| || Zeros(idx, level)
    ensures Absent(kids, Slots(level, idx, i), n)
    decreases PT_LENGTH - i
  {
    hide Slots, SlotsIn, PagesPerEntry, Room, Lookup, Absent, Zeros;
    if n > 0 && i < PT_LENGTH {
      SlotsStep(level, idx, i);
      var sub, more := SlotsIn(level, idx), Slots(level, idx, i + 1);
      RoomStep(kids, i, n, PagesPerEntry(level));
      if n > |sub| {
        WholeEntry(level, idx);
        RoomAbsent(kids, level, idx, i + 1, n - |sub|);
      }
      HoleAbsent(kids, i, sub, more, n);
    } else {
      NoneAbsent(kids, level, idx, i, n);
    }
  }

  lemma NoneAbsent(kids: seq<Node>, level: nat, idx: seq<nat>, i: nat, n: nat)
    requires level <= PT_LAST_LEVEL && InBounds(idx) && i <= PT_LENGTH && n <= |Slots(level, idx, i)| && (n == 0 || i == PT_LENGTH)
    ensures Absent(kids, Slots(level, idx, i), n)
  {
    if i == PT_LENGTH { NoSlots(level, idx); }
  }

  lemma RoomStep(kids: seq<Node>, i: nat, n: nat, perEntry: nat)
    requires perEntry > 0 && n > 0 && Room(kids, i, n, perEntry)
    ensures i < |kids| && kids[i].Hole? && Room(kids, i + 1, n - perEntry, perEntry)
  {
  }

  lemma HoleAbsent(kids: seq<Node>, i: nat, sub: seq<Path>, more: seq<Path>, n: nat)
    requires i < |kids| && kids[i].Hole? && n <= |sub| + |more| && (n > |sub| ==> Absent(kids, more, n - |sub|))
    ensures Absent(kids, Prepend(i, sub) + more, n)
  {
    var all := Prepend(i, sub) + more;
    forall k | 0 <= k < n
      ensures Lookup(kids, all[k]) == Unmapped
    {
      assert all[k] == if k < |sub| then At(i, sub[k]) else more[k - |sub|];
    }
  }

  /** Below an entry whose table is visited from its first slot on there are as many slots as pages. */
  lemma WholeEntry(level: nat, idx: seq<nat>)
    requires level <= PT_LAST_LEVEL && InBounds(idx) && Zeros(idx, level)
    ensures |SlotsIn(level, idx)| == PagesPerEntry(level)
  {
    hide Vacant, VacantIn, Slots, SlotsIn;
    SlotsStep(level, idx, 0);
    EntryPages(level);
    if level < PT_LAST_LEVEL {
      ZerosConsecutive(level + 1, idx, 0);
    }
  }

  lemma {:induction false} FitsAbsent(kids: seq<Node>, level: nat, idx: seq<nat>, n: nat)
    requires level <= PT_LAST_LEVEL && InBounds(idx) && Shaped(kids, level) && Fits(kids, level, idx, n)
    requires Straight(idx, level, n) && n <= |Slots(level, idx, idx[level])|
    ensures Absent(kids, Slots(level, idx, idx[level]), n)
    decreases PT_LAST_LEVEL - level
  {
    hide Slots, SlotsIn, PagesPerEntry, Vacant, VacantIn, SlotCount, Straight;
    var i := idx[level];
    SlotsStep(level, idx, i);
    var sub := SlotsIn(level, idx);
    if level < PT_LAST_LEVEL && kids[i].Branch? {
      assert ShapedIn(kids[i], level);
      FitsOneTable(kids[i].kids, level, idx, n);
      StraightStep(idx, level, n);
      FitsAbsent(kids[i].kids, level + 1, idx, n);
      forall k | 0 <= k < n
        ensures Lookup(kids, Slots(level, idx, i)[k]) == Unmapped
      {
        assert Slots(level, idx, i)[k] == At(i, sub[k]) && Lookup(kids[i].kids, sub[k]) == Unmapped;
        assert Lookup(kids, At(i, sub[k])) == LookupIn(kids[i], sub[k]);
      }
    } else {
      if n > |sub| {
        LongStraight(idx, level, n);
      }
      RoomAbsent(kids, level, idx, i, n);
    }
  }

  /** A straight run that fits into an existing table does not go beyond it. */
  lemma FitsOneTable(sub: seq<Node>, level: nat, idx: seq<nat>, n: nat)
    requires level < PT_LAST_LEVEL && InBounds(idx) && Shaped(sub, level + 1) && Fits(sub, level + 1, idx, n) && Straight(idx, level, n)
    ensures n <= |SlotsIn(level, idx)|
  {
    hide Slots, SlotsIn, PagesPerEntry, Vacant, VacantIn, SlotCount, Straight, Fits;
    FitsBounds(sub, level + 1, idx, n);
    if n > |SlotsIn(level, idx)| {
      LongStraight(idx, level, n);
      WholeEntry(level, idx);
      EntryPages(level);
    }
  }

  /** Where a search finds room for a straight run, the range is free. */
  lemma FitsFreeRange(tree: seq<Node>, page: nat, pages: nat)
    requires Shaped(tree, 0) && StraightRange(page, pages) && Fits(tree, 0, Indices(page), pages)
    ensures RangeFree(tree, page, pages)
  {
    hide Vacant, VacantIn, Slots, SlotsIn, PathOf, SlotCount, Fits, Straight;
    var idx := Indices(page);
    assert InBounds(idx);
    SlotsArePages(page, pages);
    hide Indices;
    var s := Slots(0, idx, idx[0]);
    FitsAbsent(tree, 0, idx, pages);
    forall v | page <= v < page + pages
      ensures View(tree, v) == Unmapped
    {
      assert s[v - page] == PathOf(page + (v - page));
    }
  }

  // ---- Runs that are not straight --------------------------------------------------------------

  predicate Rising(o: seq<int>) {
    forall a, b | 0 <= a < b < |o| :: o[a] < o[b]
  }

  /** Rising numbers that have no room to leave one out. */
  lemma {:induction false} RisingFills(o: seq<int>, first: int, k: nat)
    requires Rising(o) && k < |o| && forall j | 0 <= j < |o| :: first <= o[j] < first + |o|
    ensures o[k] >= first + k && first + |o| - o[k] >= |o| - k
    decreases k
  {
    if k > 0 {
      RisingFills(o, first, k - 1);
    }
    RisingBelow(o, first + |o|, k);
  }

  lemma {:induction false} RisingBelow(o: seq<int>, end: int, k: nat)
    requires Rising(o) && k < |o| && forall j | 0 <= j < |o| :: o[j] < end
    ensures end - o[k] >= |o| - k
    decreases |o| - k
  {
    if k + 1 < |o| {
      RisingBelow(o, end, k + 1);
    }
  }

  /** Rising numbers that begin with `first` and contain the next ones as well begin with all of them. */
  lemma {:induction false} RisingFrom(o: seq<int>, first: int, n: nat)
    requires Rising(o) && |o| > 0 && o[0] == first && forall x | first <= x < first + n :: x in o
    ensures n <= |o| && forall k | 0 <= k < n :: o[k] == first + k
    decreases n
  {
    if n > 1 {
      RisingFrom(o, first, n - 1);
      assert first + (n - 1) in o;
      var j :| 0 <= j < |o| && o[j] == first + (n - 1);
      assert j >= n - 1 by { assert forall k | 0 <= k < n - 1 :: o[k] == first + k; }
      assert o[n - 2] < o[n - 1] <= o[j];
    }
  }

  function Offsets(slots: seq<Path>): (o: seq<int>)
    ensures |o| == |slots| && forall k | 0 <= k < |o| :: o[k] == Offset(slots[k], 0)
  {
    seq(|slots|, k requires 0 <= k < |slots| => Offset(slots[k], 0))
  }

  lemma VacantRising(kids: seq<Node>, idx: seq<nat>, i: nat, n: nat)
    requires |idx| == 4 && Shaped(kids, 0) && n <= |Vacant(kids, 0, idx, i)|
    ensures Rising(Offsets(Vacant(kids, 0, idx, i)[..n]))
  {
    hide Vacant, Offset;
    var v := Vacant(kids, 0, idx, i);
    var o := Offsets(v[..n]);
    forall a, b | 0 <= a < b < n
      ensures o[a] < o[b]
    {
      VacantSorted(kids, 0, idx, i, a, b);
      assert v[..n][a] == v[a] && v[..n][b] == v[b];
    }
  }

  /** A slot that is filled is a page of the range, if all pages filled are. */
  lemma FilledInRange(tree: seq<Node>, tree': seq<Node>, page: nat, pages: nat, p: Path)
    requires KeepsOthers(tree, tree', page, pages) && IsPath(p, 4)
    requires Lookup(tree, p) == Unmapped && Lookup(tree', p).Mapped?
    ensures page <= Offset(p, 0) < page + pages && Offset(p, 0) < PAGE_LIMIT && PathOf(Offset(p, 0)) == p
  {
    hide Offset, PathOf, Lookup;
    var w := PathHasPage(p);
    OffsetOf(w);
    assert View(tree', w) != View(tree, w);
  }

  /** Every absent slot visited is a slot that would be visited in an empty table. */
  lemma VacantInSlots(kids: seq<Node>, idx: seq<nat>, i: nat, p: Path)
    requires |idx| == 4 && Shaped(kids, 0) && p in Vacant(kids, 0, idx, i)
    ensures p in Slots(0, idx, i) && IsPath(p, 4) && Lookup(kids, p) == Unmapped
  {
    VacantExact(kids, 0, idx, i, p);
    BlankShaped(0);
    VacantExact(NoKids(), 0, idx, i, p);
    assert NoKids()[p.index] == Hole;
  }

  /** Where a mapping fills as many pages as it was asked for, none of them outside the range, the range is straight. */
  lemma RangeStraight(tree: seq<Node>, locked: set<nat>, page: nat, pages: nat, frame: nat, flags: Flags)
    requires Shaped(tree, 0) && page < PAGE_LIMIT && 0 < pages
    requires var (tree', run') := MapFrom(tree, 0, Indices(page), Indices(page)[0], Run(locked, frame, pages, false), flags);
             !run'.lost && run'.pages == 0 && KeepsOthers(tree, tree', page, pages)
    ensures StraightRange(page, pages)
  {
    hide Vacant, VacantIn, Slots, SlotsIn, PathOf, SlotCount, MapFrom, Straight, KeepsOthers, Offset, Written;
    var idx, run := Indices(page), Run(locked, frame, pages, false);
    assert InBounds(idx);
    var v := Vacant(tree, 0, idx, idx[0]);
    var tree' := MapFrom(tree, 0, idx, idx[0], run, flags).0;
    MapWrites(tree, 0, idx, idx[0], run, flags);
    assert pages <= |v|;
    FirstLast(page);
    hide Indices;
    var o := Offsets(v[..pages]);
    FilledRange(tree, tree', page, pages, frame, flags, v, idx);
    VacantRising(tree, idx, idx[0], pages);
    forall k | 0 <= k < pages ensures o[k] == page + k { RisingFills(o, page, k); }
    assert o[pages - 1] < PAGE_LIMIT;
    FromFilled(tree, page, pages, idx, v, o);
    SlotsCounted(0, idx, idx[0]);
    StraightConsecutive(0, idx, idx[0], pages);
  }

  lemma FilledRange(tree: seq<Node>, tree': seq<Node>, page: nat, pages: nat, frame: nat, flags: Flags, v: seq<Path>, idx: seq<nat>)
    requires |idx| == 4 && Shaped(tree, 0) && v == Vacant(tree, 0, idx, idx[0]) && pages <= |v|
    requires KeepsOthers(tree, tree', page, pages) && Written(tree, tree', 4, v[..pages], Ptes(frame, pages, flags))
    ensures forall k | 0 <= k < pages :: page <= Offset(v[k], 0) < page + pages && Offset(v[k], 0) < PAGE_LIMIT
  {
    hide Vacant, KeepsOthers, Offset, PathOf;
    forall k | 0 <= k < pages
      ensures page <= Offset(v[k], 0) < page + pages && Offset(v[k], 0) < PAGE_LIMIT
    {
      assert v[..pages][k] == v[k];
      VacantInSlots(tree, idx, idx[0], v[k]);
      FilledInRange(tree, tree', page, pages, v[k]);
    }
  }

  /** The slots visited then begin with these pages. */
  lemma FromFilled(tree: seq<Node>, page: nat, pages: nat, idx: seq<nat>, v: seq<Path>, o: seq<int>)
    requires InBounds(idx) && Shaped(tree, 0) && v == Vacant(tree, 0, idx, idx[0]) && 0 < pages <= |v|
    requires o == Offsets(v[..pages]) && forall k | 0 <= k < pages :: o[k] == page + k
    requires var s := Slots(0, idx, idx[0]); |s| > 0 && Offset(s[0], 0) == page
    ensures var s := Slots(0, idx, idx[0]); pages <= |s| && Consecutive(s, 0, pages)
  {
    hide Vacant, Slots, Offset;
    var s := Slots(0, idx, idx[0]);
    var all := Offsets(s);
    AllRising(idx, s);
    forall x | page <= x < page + pages
      ensures x in all
    {
      var k := x - page;
      VacantInSlots(tree, idx, idx[0], v[k]);
      var j :| 0 <= j < |s| && s[j] == v[k];
      assert v[..pages][k] == v[k];
      assert all[j] == o[k];
    }
    RisingFrom(all, page, pages);
  }

  lemma AllRising(idx: seq<nat>, s: seq<Path>)
    requires InBounds(idx) && s == Slots(0, idx, idx[0])
    ensures Rising(Offsets(s))
  {
    hide Offset, Vacant;
    BlankShaped(0);
    VacantRising(NoKids(), idx, idx[0], |s|);
    assert s[..|s|] == s;
  }

  /** The first pages of a run, as long as they are free and straight, are mapped one by one, whatever comes after them. */
  lemma FirstFilled(tree: seq<Node>, locked: set<nat>, page: nat, n: nat, pages: nat, frame: nat, flags: Flags, k: nat)
    requires Shaped(tree, 0) && StraightRange(page, n) && RangeFree(tree, page, n) && k < n <= pages
    requires !MapFrom(tree, 0, Indices(page), Indices(page)[0], Run(locked, frame, pages, false), flags).1.lost
    ensures View(MapFrom(tree, 0, Indices(page), Indices(page)[0], Run(locked, frame, pages, false), flags).0, page + k) ==
              Mapped(SetPte(frame + k, flags))
  {
    hide Vacant, VacantIn, Slots, SlotsIn, PathOf, SlotCount, MapFrom, Straight;
    var idx, run := Indices(page), Run(locked, frame, pages, false);
    assert InBounds(idx);
    SlotsArePages(page, n);
    var s, v := Slots(0, idx, idx[0]), Vacant(tree, 0, idx, idx[0]);
    hide Indices;
    assert Absent(tree, s, n) by {
      forall j: nat | j < n ensures Lookup(tree, s[j]) == Unmapped { assert View(tree, page + j) == Unmapped; }
    }
    AbsentFirst(tree, 0, idx, idx[0], n);
    MapWrites(tree, 0, idx, idx[0], run, flags);
    assert v[..n][k] == s[..n][k] == PathOf(page + k);
    var m := Min(pages, |v|);
    assert v[..m][k] == PathOf(page + k);
  }

  /** What a mapping does to any page: it stays as it was, or it was free and is mapped now. */
  lemma MappedOrKept(tree: seq<Node>, locked: set<nat>, page: nat, pages: nat, frame: nat, flags: Flags, v: nat)
    requires Shaped(tree, 0) && v < PAGE_LIMIT
    requires !MapFrom(tree, 0, Indices(page), Indices(page)[0], Run(locked, frame, pages, false), flags).1.lost
    ensures var tree' := MapFrom(tree, 0, Indices(page), Indices(page)[0], Run(locked, frame, pages, false), flags).0;
            View(tree', v) == View(tree, v) || (View(tree, v) == Unmapped && View(tree', v).Mapped?)
  {
    hide Vacant, MapFrom, PathOf;
    var idx, run := Indices(page), Run(locked, frame, pages, false);
    hide Indices;
    PathIs(v);
    MapWrites(tree, 0, idx, idx[0], run, flags);
    var slots := Vacant(tree, 0, idx, idx[0]);
    var first := slots[..Min(pages, |slots|)];
    if PathOf(v) in first {
      var k :| 0 <= k < |first| && first[k] == PathOf(v);
      assert slots[k] == PathOf(v);
      VacantInSlots(tree, idx, idx[0], PathOf(v));
    }
  }
}
