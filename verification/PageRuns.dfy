/** Runs of pages within one leaf table: what mapping and re-flagging do to the flat view. */
module PageRuns {
  import opened FrameSet
  import opened Paging
  import opened PageTree
  import opened PageMap
  import opened PageFlag
  import opened PageUnmap
  import opened PageSearch

  /** The index of a slot in its leaf table. */
  function Last(p: Path): nat {
    match p
    case End => 0
    case At(i, rest) => if rest.End? then i else Last(rest)
  }

  // ---- Mapping -------------------------------------------------------------------------------

  lemma {:induction false} MapLeafRun(kids: seq<Node>, idx: seq<nat>, i: nat, run: Run, flags: Flags)
    requires |idx| == 4 && i + run.pages <= |kids| && forall j | i <= j < i + run.pages :: kids[j].Hole?
    ensures var (kids', run') := MapFrom(kids, PT_LAST_LEVEL, idx, i, run, flags);
            && run' == run.(frame := run.frame + run.pages, pages := 0)
            && forall j | 0 <= j < |kids| ::
                 kids'[j] == if i <= j < i + run.pages then Leaf(SetPte(run.frame + j - i, flags)) else kids[j]
    decreases run.pages
  {
    if run.pages > 0 {
      var (n, run1) := MapEntry(kids[i], PT_LAST_LEVEL, idx, run, flags);
      MapLeafRun(kids[i := n], idx, i + 1, run1, flags);
    }
  }

  /** Which page of the run slot `p` is. */
  function Nth(idx: seq<nat>, p: Path): nat
    requires |idx| == 4
  {
    if idx[3] <= Last(p) then Last(p) - idx[3] else 0
  }

  /** The run's pages lead to consecutive frames with exactly the given rights; all other translations are as before. */
  ghost predicate MapsRun(kids: seq<Node>, kids': seq<Node>, level: nat, idx: seq<nat>, pages: nat, frame: nat, flags: Flags)
    requires level <= PT_LAST_LEVEL && |idx| == 4
  {
    && (forall p | IsPath(p, 4 - level) ::
          Lookup(kids', p) == if InRun(idx, level, pages, p) then Mapped(SetPte(frame + Nth(idx, p), flags)) else Lookup(kids, p))
    && (forall p | InRun(idx, level, pages, p) :: Reach(kids', p) == Granted(SetPte(frame + Nth(idx, p), flags)))
  }

  ghost predicate MapsRunIn(n: Node, n': Node, level: nat, idx: seq<nat>, pages: nat, frame: nat, flags: Flags)
    requires level < PT_LAST_LEVEL && |idx| == 4
  {
    && (forall p | IsPath(p, 3 - level) ::
          LookupIn(n', p) == if InRun(idx, level + 1, pages, p) then Mapped(SetPte(frame + Nth(idx, p), flags)) else LookupIn(n, p))
    && (forall p | InRun(idx, level + 1, pages, p) :: ReachIn(n', p) == Granted(SetPte(frame + Nth(idx, p), flags)))
  }

  /** The counters once a run has been mapped whole. */
  ghost predicate AllMapped(run: Run, run': Run, level: nat)
    requires level <= PT_LAST_LEVEL
  {
    && run'.lost == run.lost && run'.pages == 0 && run'.frame == run.frame + run.pages
    && run.locked <= run'.locked && |run'.locked| <= |run.locked| + PT_LAST_LEVEL - level
  }

  /**
   * Mapping an unmapped run within one leaf table maps page k of it to frame k with exactly the requested rights,
   * changes no other translation, and takes at most one new table a level.
   */
  lemma {:induction false} MapOneLeaf(kids: seq<Node>, level: nat, idx: seq<nat>, run: Run, flags: Flags)
    requires level <= PT_LAST_LEVEL && |idx| == 4 && Shaped(kids, level) && Inside(kids, level, idx)
    requires 0 < run.pages && idx[3] + run.pages <= PT_LENGTH && Fits(kids, level, idx, run.pages)
    ensures var (kids', run') := MapFrom(kids, level, idx, idx[level], run, flags);
            AllMapped(run, run', level) && MapsRun(kids, kids', level, idx, run.pages, run.frame, flags)
    decreases PT_LAST_LEVEL - level
  {
    if level == PT_LAST_LEVEL {
      MapsLeaf(kids, idx, run, flags);
    } else {
      hide MapsRun, MapsRunIn;
      MapEntryOneLeaf(kids[idx[level]], level, idx, run, flags);
      var (n, run1) := MapEntry(kids[idx[level]], level, idx, run, flags);
      MapsAt(kids, idx[level], n, level, idx, run.pages, run.frame, flags);
      MapFromStep(kids, level, idx, idx[level], run, flags);
      MapFromEnd(kids[idx[level] := n], level, idx, idx[level] + 1, run1, flags);
    }
  }

  lemma MapsLeaf(kids: seq<Node>, idx: seq<nat>, run: Run, flags: Flags)
    requires |idx| == 4 && Shaped(kids, PT_LAST_LEVEL) && idx[3] + run.pages <= PT_LENGTH && Fits(kids, PT_LAST_LEVEL, idx, run.pages)
    ensures var (kids', run') := MapFrom(kids, PT_LAST_LEVEL, idx, idx[PT_LAST_LEVEL], run, flags);
            AllMapped(run, run', PT_LAST_LEVEL) && MapsRun(kids, kids', PT_LAST_LEVEL, idx, run.pages, run.frame, flags)
  {
    RoomSlots(kids, idx[3], run.pages);
    MapLeafRun(kids, idx, idx[3], run, flags);
    LeavesMapped(kids, MapFrom(kids, PT_LAST_LEVEL, idx, idx[3], run, flags).0, idx, run.pages, run.frame, flags);
  }

  lemma LeavesMapped(kids: seq<Node>, kids': seq<Node>, idx: seq<nat>, pages: nat, frame: nat, flags: Flags)
    requires |idx| == 4 && |kids| == |kids'| == PT_LENGTH && idx[3] + pages <= PT_LENGTH
    requires forall j | 0 <= j < PT_LENGTH ::
               kids'[j] == if idx[3] <= j < idx[3] + pages then Leaf(SetPte(frame + j - idx[3], flags)) else kids[j]
    ensures MapsRun(kids, kids', PT_LAST_LEVEL, idx, pages, frame, flags)
  {
    assert forall p | IsPath(p, 1) :: p.rest == End;
  }

  lemma MapsAt(kids: seq<Node>, i: nat, n: Node, level: nat, idx: seq<nat>, pages: nat, frame: nat, flags: Flags)
    requires level < PT_LAST_LEVEL && |idx| == 4 && idx[level] == i < |kids| == PT_LENGTH
    requires MapsRunIn(kids[i], n, level, idx, pages, frame, flags)
    ensures MapsRun(kids, kids[i := n], level, idx, pages, frame, flags)
  {
    var kids' := kids[i := n];
    forall p | IsPath(p, 4 - level)
      ensures Lookup(kids', p) == if InRun(idx, level, pages, p) then Mapped(SetPte(frame + Nth(idx, p), flags)) else Lookup(kids, p)
    {
      assert IsPath(p.rest, 3 - level) && Last(p) == Last(p.rest);
      assert InRun(idx, level, pages, p) <==> p.index == i && InRun(idx, level + 1, pages, p.rest);
    }
    forall p | InRun(idx, level, pages, p)
      ensures Reach(kids', p) == Granted(SetPte(frame + Nth(idx, p), flags))
    {
      assert InRun(idx, level + 1, pages, p.rest) && Last(p) == Last(p.rest);
    }
  }

  lemma MapsBelow(n: Node, kids: seq<Node>, kids': seq<Node>, level: nat, idx: seq<nat>, pages: nat, frame: nat, flags: Flags, e: Pte)
    requires level < PT_LAST_LEVEL && |idx| == 4 && MapsRun(kids, kids', level + 1, idx, pages, frame, flags)
    requires forall p | IsPath(p, 3 - level) :: LookupIn(n, p) == Lookup(kids, p)
    ensures MapsRunIn(n, Branch(Retag(e, flags), kids'), level, idx, pages, frame, flags)
  {
  }

  lemma {:induction false} MapEntryOneLeaf(n: Node, level: nat, idx: seq<nat>, run: Run, flags: Flags)
    requires level < PT_LAST_LEVEL && |idx| == 4 && ShapedIn(n, level) && IsPath(PathFrom(idx, level + 1), 3 - level)
    requires !LookupIn(n, PathFrom(idx, level + 1)).Outside? && (n.Branch? ==> Fits(n.kids, level + 1, idx, run.pages))
    requires 0 < run.pages && idx[3] + run.pages <= PT_LENGTH
    ensures var (n', run') := MapEntry(n, level, idx, run, flags);
            AllMapped(run, run', level) && MapsRunIn(n, n', level, idx, run.pages, run.frame, flags)
    decreases PT_LAST_LEVEL - level, 0
  {
    hide MapsRun, MapsRunIn, Fits, IsPath;
    if n.Branch? {
      MapOneLeaf(n.kids, level + 1, idx, run, flags);
      MapsBelow(n, n.kids, MapFrom(n.kids, level + 1, idx, idx[level + 1], run, flags).0, level, idx, run.pages, run.frame, flags, n.entry);
    } else {
      var f := LeastFree(run.locked);
      var run1 := run.(locked := run.locked + {f});
      NoKidsFit(level + 1, idx, run.pages);
      MapOneLeaf(NoKids(), level + 1, idx, run1, flags);
      MapsBelow(n, NoKids(), MapFrom(NoKids(), level + 1, idx, idx[level + 1], run1, flags).0, level, idx, run.pages, run.frame, flags,
                SetPte(f, WRITE_ONLY));
    }
  }

  lemma {:induction false} NoKidsFit(level: nat, idx: seq<nat>, pages: nat)
    requires 0 < level <= PT_LAST_LEVEL && |idx| == 4 && IsPath(PathFrom(idx, level), 4 - level) && idx[3] + pages <= PT_LENGTH
    ensures Shaped(NoKids(), level) && Inside(NoKids(), level, idx) && Fits(NoKids(), level, idx, pages)
    ensures forall p | IsPath(p, 4 - level) :: Lookup(NoKids(), p) == Unmapped
  {
    if level == PT_LAST_LEVEL {
      RoomSlots(NoKids(), idx[3], pages);
    } else {
      AbsentFits(NoKids(), level, idx, pages);
    }
  }

  // ---- Re-flagging ---------------------------------------------------------------------------

  /** Slot `p` is in the same leaf table as the slot at the indices. */
  predicate InTable(idx: seq<nat>, level: nat, p: Path)
    requires |idx| == 4 && level <= PT_LAST_LEVEL
    decreases PT_LAST_LEVEL - level
  {
    p.At? &&
    if level == PT_LAST_LEVEL then p.index < PT_LENGTH && p.rest.End?
    else p.index == idx[level] && InTable(idx, level + 1, p.rest)
  }

  /** If one slot of a leaf table is inside the tree, they all are. */
  lemma {:induction false} TableInside(kids: seq<Node>, level: nat, idx: seq<nat>, p: Path)
    requires level <= PT_LAST_LEVEL && |idx| == 4 && Shaped(kids, level) && Inside(kids, level, idx) && InTable(idx, level, p)
    ensures !Lookup(kids, p).Outside?
    decreases PT_LAST_LEVEL - level
  {
    var n := kids[p.index];
    assert ShapedIn(n, level);
    if level < PT_LAST_LEVEL {
      assert Lookup(kids, PathFrom(idx, level)) == LookupIn(n, PathFrom(idx, level + 1));
      if n.Branch? {
        TableInside(n.kids, level + 1, idx, p.rest);
      }
    }
  }

  /** Every page of the run is mapped. */
  ghost predicate RunMapped(kids: seq<Node>, idx: seq<nat>, level: nat, pages: nat)
    requires |idx| == 4 && level <= PT_LAST_LEVEL
  {
    forall p | InRun(idx, level, pages, p) :: Lookup(kids, p).Mapped?
  }

  function Reflagged(s: Seen, flags: Flags): Seen {
    match s
    case Mapped(e) => Mapped(SetPte(e.frame, flags))
    case _ => s
  }

  /** The rights of a leaf entry below upper entries that carry `flags`; at the last level there are none of these. */
  function Capped(s: Seen, level: nat, flags: Flags): Walked {
    match s
    case Mapped(e) =>
      if level >= PT_LAST_LEVEL then Granted(e)
      else Reached(e.frame, e.writable && flags.writable, e.user && flags.user, e.noExecute)
    case _ => Fault
  }

  /**
   * The run's pages keep their frames and have the new rights, no other leaf entry has changed, and every page
   * of the leaf table is limited by the rights asked for last.
   */
  ghost predicate FlagsRun(kids: seq<Node>, kids': seq<Node>, level: nat, idx: seq<nat>, pages: nat, flags: Flags)
    requires level <= PT_LAST_LEVEL && |idx| == 4
  {
    && (forall p | IsPath(p, 4 - level) ::
          Lookup(kids', p) == if InRun(idx, level, pages, p) then Reflagged(Lookup(kids, p), flags) else Lookup(kids, p))
    && (forall p | InTable(idx, level, p) :: Reach(kids', p) == Capped(Lookup(kids', p), level, flags))
  }

  lemma {:induction false} FlagLeafRun(kids: seq<Node>, idx: seq<nat>, i: nat, run: FlagRun, flags: Flags)
    requires |idx| == 4 && i + run.pages <= |kids| && !run.missing
    requires forall j | i <= j < i + run.pages :: kids[j].Hole? || kids[j].Leaf?
    ensures var (kids', run') := FlagFrom(kids, PT_LAST_LEVEL, idx, i, run, flags);
            && run'.lost == run.lost && (run'.missing <==> exists j :: i <= j < i + run.pages && kids[j].Hole?)
            && (!run'.missing ==> run'.pages == 0 && forall j | 0 <= j < |kids| ::
                 kids'[j] == if i <= j < i + run.pages then Leaf(SetPte(kids[j].entry.frame, flags)) else kids[j])
    decreases run.pages
  {
    if run.pages > 0 && kids[i].Leaf? {
      var (n, run1) := FlagEntry(kids[i], PT_LAST_LEVEL, idx, run, flags);
      FlagLeafRun(kids[i := n], idx, i + 1, run1, flags);
      assert forall j | i < j < i + run.pages :: kids[i := n][j] == kids[j];
    }
  }

  lemma LeavesFlagged(kids: seq<Node>, kids': seq<Node>, idx: seq<nat>, pages: nat, flags: Flags)
    requires |idx| == 4 && |kids| == |kids'| == PT_LENGTH && idx[3] + pages <= PT_LENGTH && Shaped(kids, PT_LAST_LEVEL)
    requires forall j | idx[3] <= j < idx[3] + pages :: kids[j].Leaf?
    requires forall j | 0 <= j < PT_LENGTH ::
               kids'[j] == if idx[3] <= j < idx[3] + pages then Leaf(SetPte(kids[j].entry.frame, flags)) else kids[j]
    ensures FlagsRun(kids, kids', PT_LAST_LEVEL, idx, pages, flags)
  {
    forall p | IsPath(p, 1)
      ensures p.rest == End && ShapedIn(kids[p.index], PT_LAST_LEVEL)
      ensures Lookup(kids, p) == LookupIn(kids[p.index], End) && Lookup(kids', p) == LookupIn(kids'[p.index], End)
    {
      assert IsPath(p.rest, 0);
    }
  }

  lemma RunMappedLeaf(kids: seq<Node>, idx: seq<nat>, pages: nat)
    requires |idx| == 4 && |kids| == PT_LENGTH && idx[3] + pages <= PT_LENGTH && Shaped(kids, PT_LAST_LEVEL)
    ensures RunMapped(kids, idx, PT_LAST_LEVEL, pages) <==> !exists j :: idx[3] <= j < idx[3] + pages && kids[j].Hole?
    ensures forall j | 0 <= j < PT_LENGTH :: kids[j].Hole? || kids[j].Leaf?
  {
    forall j | 0 <= j < PT_LENGTH ensures kids[j].Hole? || kids[j].Leaf? { assert ShapedIn(kids[j], PT_LAST_LEVEL); }
    forall j | idx[3] <= j < idx[3] + pages
      ensures InRun(idx, PT_LAST_LEVEL, pages, At(j, End)) && (kids[j].Hole? <==> !Lookup(kids, At(j, End)).Mapped?)
    {
    }
  }

  lemma {:induction false} RunStarts(idx: seq<nat>, level: nat, pages: nat)
    requires |idx| == 4 && level <= PT_LAST_LEVEL && pages > 0
    ensures InRun(idx, level, pages, PathFrom(idx, level))
    decreases PT_LAST_LEVEL - level
  {
    if level < PT_LAST_LEVEL {
      RunStarts(idx, level + 1, pages);
    }
  }

  lemma RunMappedBelow(kids: seq<Node>, idx: seq<nat>, level: nat, pages: nat)
    requires |idx| == 4 && level < PT_LAST_LEVEL && idx[level] < |kids| && pages > 0
    ensures kids[idx[level]].Hole? ==> !RunMapped(kids, idx, level, pages)
    ensures kids[idx[level]].Branch? ==> (RunMapped(kids, idx, level, pages) <==> RunMapped(kids[idx[level]].kids, idx, level + 1, pages))
  {
    var i := idx[level];
    RunStarts(idx, level, pages);
    assert kids[i].Hole? ==> Lookup(kids, PathFrom(idx, level)) == Unmapped;
    if kids[i].Branch? {
      forall q
        ensures InRun(idx, level, pages, At(i, q)) <==> InRun(idx, level + 1, pages, q)
        ensures Lookup(kids, At(i, q)) == Lookup(kids[i].kids, q)
      {
        assert LookupIn(kids[i], q) == Lookup(kids[i].kids, q);
      }
      forall p | InRun(idx, level, pages, p) ensures p == At(i, p.rest) {}
    }
  }

  lemma FlagsAbove(kids: seq<Node>, i: nat, sub': seq<Node>, level: nat, idx: seq<nat>, pages: nat, flags: Flags)
    requires level < PT_LAST_LEVEL && |idx| == 4 && idx[level] == i < |kids| == PT_LENGTH && kids[i].Branch?
    requires FlagsRun(kids[i].kids, sub', level + 1, idx, pages, flags)
    ensures FlagsRun(kids, kids[i := Branch(Retag(kids[i].entry, flags), sub')], level, idx, pages, flags)
  {
    var kids' := kids[i := Branch(Retag(kids[i].entry, flags), sub')];
    forall p | IsPath(p, 4 - level) && p.index == i
      ensures Lookup(kids, p) == Lookup(kids[i].kids, p.rest) && Lookup(kids', p) == Lookup(sub', p.rest)
      ensures IsPath(p.rest, 3 - level) && (InRun(idx, level, pages, p) <==> InRun(idx, level + 1, pages, p.rest))
    {
      assert LookupIn(kids[i], p.rest) == Lookup(kids[i].kids, p.rest) && LookupIn(kids'[i], p.rest) == Lookup(sub', p.rest);
    }
    forall p | InTable(idx, level, p)
      ensures Reach(kids', p) == Capped(Lookup(kids', p), level, flags)
    {
      assert InTable(idx, level + 1, p.rest);
      assert Reach(kids', p) == ReachIn(kids'[i], p.rest) == Through(Retag(kids[i].entry, flags), Reach(sub', p.rest));
      assert Lookup(kids', p) == LookupIn(kids'[i], p.rest) == Lookup(sub', p.rest);
    }
  }

  /**
   * Re-flagging a run within one leaf table succeeds exactly if all its pages are mapped, and then gives exactly
   * these pages the new rights.
   */
  lemma {:induction false} FlagOneLeaf(kids: seq<Node>, level: nat, idx: seq<nat>, run: FlagRun, flags: Flags)
    requires level <= PT_LAST_LEVEL && |idx| == 4 && Shaped(kids, level) && Inside(kids, level, idx)
    requires 0 < run.pages && idx[3] + run.pages <= PT_LENGTH && !run.missing
    ensures var (kids', run') := FlagFrom(kids, level, idx, idx[level], run, flags);
            && run'.lost == run.lost && (run'.missing <==> !RunMapped(kids, idx, level, run.pages))
            && (!run'.missing ==> run'.pages == 0 && FlagsRun(kids, kids', level, idx, run.pages, flags))
    decreases PT_LAST_LEVEL - level
  {
    hide FlagsRun, RunMapped;
    var i := idx[level];
    if level == PT_LAST_LEVEL {
      RunMappedLeaf(kids, idx, run.pages);
      FlagLeafRun(kids, idx, i, run, flags);
      if RunMapped(kids, idx, level, run.pages) {
        LeavesFlagged(kids, FlagFrom(kids, level, idx, i, run, flags).0, idx, run.pages, flags);
      }
    } else {
      assert ShapedIn(kids[i], level);
      assert Lookup(kids, PathFrom(idx, level)) == LookupIn(kids[i], PathFrom(idx, level + 1));
      RunMappedBelow(kids, idx, level, run.pages);
      FlagFromStep(kids, level, idx, i, run, flags);
      var (n, run1) := FlagEntry(kids[i], level, idx, run, flags);
      if kids[i].Branch? {
        FlagOneLeaf(kids[i].kids, level + 1, idx, run, flags);
        if !run1.missing {
          FlagsAbove(kids, i, n.kids, level, idx, run.pages, flags);
        }
      }
      FlagFromEnd(kids[i := n], level, idx, i + 1, run1, flags);
    }
  }
}
