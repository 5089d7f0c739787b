/** Which runs a strict search finds room for (`find_space`), on trees. */
module PageSearch {
  import opened Paging
  import opened PageTree
  import opened PageFlag
  import opened PageUnmap
  import opened Status

  /** `pte_flags_match`: can only hold for user mappings. */
  function FlagsMatch(e: Pte, flags: Flags): (r: bool)
    ensures r ==> flags.user
  {
    e.writable && flags.writable && e.user && flags.user && e.noExecute && !flags.executable
  }

  /** From entry `i` on there are absent entries enough for `need` more pages. */
  predicate Room(kids: seq<Node>, i: nat, need: int, perEntry: nat)
    requires perEntry > 0
    decreases need
  {
    need <= 0 || (i < |kids| && kids[i].Hole? && Room(kids, i + 1, need - perEntry, perEntry))
  }

  /** The search for a run at the indices succeeds at once. */
  predicate Fits(kids: seq<Node>, level: nat, idx: seq<nat>, pages: nat)
    requires level <= PT_LAST_LEVEL && |idx| == 4
    decreases PT_LAST_LEVEL - level
  {
    var i := idx[level];
    if level < PT_LAST_LEVEL && i < |kids| && kids[i].Branch? then Fits(kids[i].kids, level + 1, idx, pages)
    else Room(kids, i, pages, PagesPerEntry(level))
  }

  lemma {:induction false} RoomSlots(kids: seq<Node>, i: nat, need: int)
    ensures Room(kids, i, need, 1) <==> need <= 0 || (i + need <= |kids| && forall j | i <= j < i + need :: kids[j].Hole?)
    decreases need
  {
    if need > 0 && i < |kids| {
      RoomSlots(kids, i + 1, need - 1);
    }
  }

  /** Entry `j` begins before the entries from `i` on cover the need. */
  predicate Wanted(i: nat, j: nat, need: int, perEntry: nat) {
    i <= j && (j - i) * perEntry < need
  }

  lemma WantedOn(i: nat, j: nat, need: int, perEntry: nat)
    requires perEntry > 0
    ensures need > 0 ==> (Wanted(i, j, need, perEntry) <==> j == i || Wanted(i + 1, j, need - perEntry, perEntry))
    ensures need <= 0 ==> !Wanted(i, j, need, perEntry)
  {
    assert i < j ==> (j - i) * perEntry == (j - (i + 1)) * perEntry + perEntry;
    assert i == j ==> (j - i) * perEntry == 0;
    assert i <= j ==> (j - i) * perEntry >= 0;
  }

  lemma {:induction false} RoomAbsent(kids: seq<Node>, i: nat, need: int, perEntry: nat, j: nat)
    requires perEntry > 0 && Room(kids, i, need, perEntry) && Wanted(i, j, need, perEntry)
    ensures j < |kids| && kids[j].Hole?
    decreases need
  {
    WantedOn(i, j, need, perEntry);
    if i < j {
      RoomAbsent(kids, i + 1, need - perEntry, perEntry, j);
    }
  }

  lemma {:induction false} RoomLacks(kids: seq<Node>, i: nat, need: int, perEntry: nat) returns (j: nat)
    requires perEntry > 0 && !Room(kids, i, need, perEntry)
    ensures Wanted(i, j, need, perEntry) && !(j < |kids| && kids[j].Hole?)
    decreases need
  {
    j := i;
    if i < |kids| && kids[i].Hole? {
      j := RoomLacks(kids, i + 1, need - perEntry, perEntry);
    }
    WantedOn(i, j, need, perEntry);
  }

  /** Room is there exactly if every entry is absent that begins before the need is covered. */
  lemma RoomIff(kids: seq<Node>, i: nat, need: int, perEntry: nat)
    requires perEntry > 0
    ensures Room(kids, i, need, perEntry) <==> forall j: nat | Wanted(i, j, need, perEntry) :: j < |kids| && kids[j].Hole?
  {
    hide Wanted;
    if Room(kids, i, need, perEntry) {
      forall j: nat | Wanted(i, j, need, perEntry)
        ensures j < |kids| && kids[j].Hole?
      {
        RoomAbsent(kids, i, need, perEntry, j);
      }
    } else {
      var j := RoomLacks(kids, i, need, perEntry);
    }
  }

  /** The way along the indices leads through present upper entries from `kids` to this table at level `depth`. */
  predicate Leads(kids: seq<Node>, level: nat, idx: seq<nat>, depth: nat, table: seq<Node>)
    requires level <= depth <= PT_LAST_LEVEL && |idx| == 4
    decreases depth - level
  {
    if level == depth then table == kids
    else idx[level] < |kids| && kids[idx[level]].Branch? && Leads(kids[idx[level]].kids, level + 1, idx, depth, table)
  }

  /** Where the way ends: in a leaf table, or where the next upper entry is not a present one. */
  predicate WayEnds(idx: seq<nat>, depth: nat, table: seq<Node>)
    requires depth <= PT_LAST_LEVEL && |idx| == 4
  {
    depth == PT_LAST_LEVEL || idx[depth] >= |table| || !table[idx[depth]].Branch?
  }

  lemma {:induction false} WayEnd(kids: seq<Node>, level: nat, idx: seq<nat>) returns (depth: nat, table: seq<Node>)
    requires level <= PT_LAST_LEVEL && |idx| == 4
    ensures level <= depth <= PT_LAST_LEVEL && Leads(kids, level, idx, depth, table) && WayEnds(idx, depth, table)
    decreases PT_LAST_LEVEL - level
  {
    depth, table := level, kids;
    if !WayEnds(idx, level, kids) {
      depth, table := WayEnd(kids[idx[level]].kids, level + 1, idx);
    }
  }

  /**
   * Room for a run of any length, at any level: where the way along the indices ends, every entry from the index on is
   * absent that begins before the run is covered, an entry standing for 2^27, 2^18, 2^9 or 1 pages.
   */
  lemma {:induction false} FitsIff(kids: seq<Node>, level: nat, idx: seq<nat>, pages: nat, depth: nat, table: seq<Node>)
    requires level <= depth <= PT_LAST_LEVEL && |idx| == 4 && Leads(kids, level, idx, depth, table) && WayEnds(idx, depth, table)
    ensures Fits(kids, level, idx, pages) <==>
            forall j: nat | Wanted(idx[depth], j, pages, [0x800_0000, 0x4_0000, 512, 1][depth]) :: j < |table| && table[j].Hole?
    decreases depth - level
  {
    if level < depth {
      FitsIff(kids[idx[level]].kids, level + 1, idx, pages, depth, table);
    } else {
      PerEntry();
      hide PagesPerEntry, Room, Wanted;
      assert PagesPerEntry(depth) == [0x800_0000, 0x4_0000, 512, 1][depth];
      RoomIff(table, idx[depth], pages, [0x800_0000, 0x4_0000, 512, 1][depth]);
    }
  }

  lemma {:induction false} FitsFree(kids: seq<Node>, level: nat, idx: seq<nat>, pages: nat, p: Path)
    requires level <= PT_LAST_LEVEL && |idx| == 4 && Shaped(kids, level) && IsPath(PathFrom(idx, level), 4 - level)
    requires 0 < pages && idx[3] + pages <= PT_LENGTH
    requires Fits(kids, level, idx, pages) && InRun(idx, level, pages, p)
    ensures Lookup(kids, p) == Unmapped
    decreases PT_LAST_LEVEL - level
  {
    if level == PT_LAST_LEVEL {
      RoomSlots(kids, idx[level], pages);
    } else if kids[idx[level]].Branch? {
      FitsFree(kids[idx[level]].kids, level + 1, idx, pages, p.rest);
    }
  }

  lemma AbsentFits(kids: seq<Node>, level: nat, idx: seq<nat>, pages: nat)
    requires level < PT_LAST_LEVEL && |idx| == 4 && idx[level] < |kids| && kids[idx[level]].Hole? && idx[3] + pages <= PT_LENGTH
    ensures Fits(kids, level, idx, pages)
  {
    EntryCovers(level, idx[3], pages);
    assert Room(kids, idx[level] + 1, pages - PagesPerEntry(level), PagesPerEntry(level));
  }

  lemma {:induction false} MisfitTaken(kids: seq<Node>, level: nat, idx: seq<nat>, pages: nat) returns (p: Path)
    requires level <= PT_LAST_LEVEL && |idx| == 4 && Shaped(kids, level) && IsPath(PathFrom(idx, level), 4 - level)
    requires 0 < pages && idx[3] + pages <= PT_LENGTH && !Lookup(kids, PathFrom(idx, level)).Outside?
    requires !Fits(kids, level, idx, pages)
    ensures InRun(idx, level, pages, p) && Lookup(kids, p) != Unmapped
    decreases PT_LAST_LEVEL - level
  {
    var i := idx[level];
    if level == PT_LAST_LEVEL {
      RoomSlots(kids, i, pages);
      var j :| i <= j < i + pages && !kids[j].Hole?;
      assert ShapedIn(kids[j], level);
      p := At(j, End);
    } else if kids[i].Branch? {
      var q := MisfitTaken(kids[i].kids, level + 1, idx, pages);
      p := At(i, q);
    } else {
      assert ShapedIn(kids[i], level);
      AbsentFits(kids, level, idx, pages);
      assert false;
    }
  }

  /** Within one leaf table a run fits exactly if all its pages are unmapped. */
  lemma FitsOneLeaf(kids: seq<Node>, idx: seq<nat>, pages: nat)
    requires |idx| == 4 && Shaped(kids, 0) && IsPath(PathFrom(idx, 0), 4)
    requires 0 < pages && idx[3] + pages <= PT_LENGTH && !Lookup(kids, PathFrom(idx, 0)).Outside?
    ensures Fits(kids, 0, idx, pages) <==> forall p | InRun(idx, 0, pages, p) :: Lookup(kids, p) == Unmapped
  {
    if Fits(kids, 0, idx, pages) {
      forall p | InRun(idx, 0, pages, p)
        ensures Lookup(kids, p) == Unmapped
      {
        FitsFree(kids, 0, idx, pages, p);
      }
    } else {
      var p := MisfitTaken(kids, 0, idx, pages);
      OneTaken(kids, 0, idx, pages, p);
    }
  }

  lemma OneTaken(kids: seq<Node>, level: nat, idx: seq<nat>, pages: nat, p: Path)
    requires level <= PT_LAST_LEVEL && |idx| == 4 && InRun(idx, level, pages, p) && Lookup(kids, p) != Unmapped
    ensures !forall q | InRun(idx, level, pages, q) :: Lookup(kids, q) == Unmapped
  {
  }

  /** What a search promises when its tables hold `kids`: room at the indices is found, and a strict search finds no other. */
  ghost predicate SearchTold(kids: seq<Node>, level: nat, idx: seq<nat>, pages: nat, flags: Flags, res: Status, idx': seq<nat>)
    requires level <= PT_LAST_LEVEL && |idx| == 4
  {
    && (Fits(kids, level, idx, pages) ==> res >= pages && idx' == idx)
    && (flags.strict && !Fits(kids, level, idx, pages) ==> res == EOVERLAP)
  }

  /** What a search promises for any tables. */
  ghost predicate SearchBounds(level: nat, idx: seq<nat>, pages: nat, flags: Flags, res: Status, idx': seq<nat>)
    requires level <= PT_LAST_LEVEL && |idx| == 4
  {
    && |idx'| == 4 && idx'[..level] == idx[..level] && (IsError(res) || res >= pages)
    && (flags.strict && IsPath(PathFrom(idx, level), 4 - level) ==> idx' == idx && res != EFULL)
  }

  /** The path at the indices stays inside the tree. */
  ghost predicate Inside(kids: seq<Node>, level: nat, idx: seq<nat>)
    requires level <= PT_LAST_LEVEL && |idx| == 4
  {
    IsPath(PathFrom(idx, level), 4 - level) && !Lookup(kids, PathFrom(idx, level)).Outside?
  }

  /** Counting absent entries decides whether there is room. */
  lemma {:induction false} RoomCounted(kids: seq<Node>, from: nat, i: nat, pages: int, perEntry: nat)
    requires from <= i <= |kids| && perEntry > 0 && forall j | from <= j < i :: kids[j].Hole?
    requires (i - from) * perEntry >= pages || i == |kids| || !kids[i].Hole?
    ensures Room(kids, from, pages, perEntry) <==> (i - from) * perEntry >= pages
    decreases i - from
  {
    if pages > 0 && from < i {
      assert (i - from) * perEntry == (i - (from + 1)) * perEntry + perEntry;
      RoomCounted(kids, from + 1, i, pages - perEntry, perEntry);
    }
  }

  /** The outcome of counting from an absent entry at the indices. */
  lemma FitsCounted(kids: seq<Node>, level: nat, idx: seq<nat>, i: nat, pages: nat)
    requires level <= PT_LAST_LEVEL && |idx| == 4 && idx[level] < i <= |kids| && forall j | idx[level] <= j < i :: kids[j].Hole?
    requires (i - idx[level]) * PagesPerEntry(level) >= pages || i == |kids| || !kids[i].Hole?
    ensures Fits(kids, level, idx, pages) <==> (i - idx[level]) * PagesPerEntry(level) >= pages
  {
    RoomCounted(kids, idx[level], i, pages, PagesPerEntry(level));
  }
}
