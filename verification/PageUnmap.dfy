/** Clearing leaf slots (`recurse_unmap`), on trees, and the pages invalidated meanwhile. */
module PageUnmap {
  import opened Paging
  import opened PageTree
  import opened PageMap
  import opened PageFlag

  /** `get_pages_per_entry`. */
  function PagesPerEntry(level: nat): (r: nat)
    ensures r > 0
    decreases PT_LAST_LEVEL - level
  {
    if level >= PT_LAST_LEVEL then 1 else PT_LENGTH * PagesPerEntry(level + 1)
  }

  /** How many pages lie under one entry, level by level. */
  lemma PerEntry()
    ensures PagesPerEntry(0) == 0x800_0000 && PagesPerEntry(1) == 0x4_0000 && PagesPerEntry(2) == PT_LENGTH && PagesPerEntry(3) == 1
  {
    assert PagesPerEntry(3) == 1;
    assert PagesPerEntry(2) == PT_LENGTH;
    assert PagesPerEntry(1) == PT_LENGTH * PT_LENGTH;
  }

  /** What `recurse_unmap` threads through its recursion: indices and address in place, pages counted and pages invalidated. */
  datatype UnmapRun = UnmapRun(idx: seq<nat>, page: nat, done: nat, flushed: seq<nat>, lost: bool)

  ghost function UnmapFrom(kids: seq<Node>, level: nat, run: UnmapRun, pages: nat): (r: (seq<Node>, UnmapRun))
    requires level <= PT_LAST_LEVEL && |run.idx| == 4
    ensures |r.0| == |kids| && |r.1.idx| == 4 && r.1.idx[..level] == run.idx[..level]
    decreases PT_LAST_LEVEL - level, |kids| - run.idx[level]
  {
    var i := run.idx[level];
    if i >= |kids| || run.done >= pages then (kids, run)
    else
      var (n, run1) := UnmapEntry(kids[i], level, run, pages);
      if run1.done >= pages then (kids[i := n], run1)
      else UnmapFrom(kids[i := n], level, run1.(idx := run1.idx[level := i + 1]), pages)
  }

  ghost function UnmapEntry(n: Node, level: nat, run: UnmapRun, pages: nat): (r: (Node, UnmapRun))
    requires level <= PT_LAST_LEVEL && |run.idx| == 4
    ensures |r.1.idx| == 4 && r.1.idx[..level + 1] == run.idx[..level + 1]
    decreases PT_LAST_LEVEL - level, 0
  {
    if level == PT_LAST_LEVEL then
      (Hole, run.(page := run.page + 1, done := run.done + 1, flushed := run.flushed + [run.page]))
    else
      match n
      case Branch(e, kids) =>
        var (sub, run') := UnmapFrom(kids, level + 1, run.(done := 0), pages);
        (Branch(e, sub), run'.(done := run.done + run'.done))
      case Hole =>
        (n, run.(page := run.page + PagesPerEntry(level), done := run.done + PagesPerEntry(level)))
      case _ => (n, run.(lost := true))
  }

  lemma {:induction false} UnmapKeeps(kids: seq<Node>, level: nat, run: UnmapRun, pages: nat)
    requires level <= PT_LAST_LEVEL && |run.idx| == 4
    ensures var (kids', run') := UnmapFrom(kids, level, run, pages);
            && (run.lost ==> run'.lost) && run.flushed <= run'.flushed && run.done <= run'.done
            && (run'.done < pages ==> run'.idx[level] >= |kids|)
            && (forall k | 0 <= k < 4 :: run.idx[k] <= run'.idx[k])
    decreases PT_LAST_LEVEL - level, |kids| - run.idx[level], 1
  {
    var i := run.idx[level];
    if i < |kids| && run.done < pages {
      var (n, run1) := UnmapEntry(kids[i], level, run, pages);
      UnmapEntryKeeps(kids[i], level, run, pages);
      if run1.done < pages {
        UnmapKeeps(kids[i := n], level, run1.(idx := run1.idx[level := i + 1]), pages);
      }
    }
  }

  lemma {:induction false} UnmapEntryKeeps(n: Node, level: nat, run: UnmapRun, pages: nat)
    requires level <= PT_LAST_LEVEL && |run.idx| == 4
    ensures var run' := UnmapEntry(n, level, run, pages).1;
            && (run.lost ==> run'.lost) && run.flushed <= run'.flushed && run.done <= run'.done
            && run'.idx[level] == run.idx[level] && (forall k | 0 <= k < 4 :: run.idx[k] <= run'.idx[k])
    decreases PT_LAST_LEVEL - level, 0
  {
    var run' := UnmapEntry(n, level, run, pages).1;
    assert run'.idx[..level + 1][level] == run.idx[..level + 1][level];
    if n.Branch? && level < PT_LAST_LEVEL {
      UnmapKeeps(n.kids, level + 1, run.(done := 0), pages);
    }
  }

  /** One turn of the loop. */
  lemma UnmapTurn(kids: seq<Node>, level: nat, run: UnmapRun, pages: nat)
    requires level <= PT_LAST_LEVEL && |run.idx| == 4 && run.idx[level] < |kids| && run.done < pages
    ensures var i := run.idx[level];
            var (n, run1) := UnmapEntry(kids[i], level, run, pages);
            var run2 := run1.(idx := run1.idx[level := i + 1]);
            var goal := UnmapFrom(kids, level, run, pages);
            && goal == (if run1.done >= pages then (kids[i := n], run1) else UnmapFrom(kids[i := n], level, run2, pages))
            && run1.idx[level] == i && (!goal.1.lost ==> !run1.lost)
  {
    var i := run.idx[level];
    var (n, run1) := UnmapEntry(kids[i], level, run, pages);
    UnmapEntryKeeps(kids[i], level, run, pages);
    UnmapKeeps(kids[i := n], level, run1.(idx := run1.idx[level := i + 1]), pages);
  }

  lemma UnmapEnd(kids: seq<Node>, level: nat, run: UnmapRun, pages: nat)
    requires level <= PT_LAST_LEVEL && |run.idx| == 4 && (run.idx[level] >= |kids| || run.done >= pages)
    ensures UnmapFrom(kids, level, run, pages) == (kids, run)
  {
  }

  // ---- Pages and slots -----------------------------------------------------------------------

  /** The page a path names, relative to the first page of its table at `level`. */
  function Offset(path: Path, level: nat): nat
    decreases path
  {
    match path
    case End => 0
    case At(i, rest) => i * PagesPerEntry(level) + Offset(rest, level + 1)
  }

  /** The page that slot `p` names if the address kept beside the indices names the slot at the indices. */
  ghost function PageAt(run: UnmapRun, level: nat, p: Path): int
    requires level <= 4 && |run.idx| == 4
  {
    run.page + Offset(p, level) - Offset(PathFrom(run.idx, level), level)
  }

  /** Some deeper index has run off its table, so that no leaf slot below can be reached any more. */
  ghost predicate Spent(idx: seq<nat>, level: nat)
    requires |idx| == 4
  {
    exists k | level < k < 4 :: idx[k] >= PT_LENGTH
  }

  lemma SpentStays(idx: seq<nat>, idx': seq<nat>, level: nat)
    requires |idx| == |idx'| == 4 && Spent(idx, level) && forall k | level < k < 4 :: idx[k] <= idx'[k]
    ensures Spent(idx', level)
  {
    var k :| level < k < 4 && idx[k] >= PT_LENGTH;
    assert idx'[k] >= PT_LENGTH;
  }

  /** Every slot that changed was cleared and the page it names was invalidated; every page invalidated names a cleared slot. */
  ghost predicate Cleared(kids: seq<Node>, kids': seq<Node>, level: nat, run: UnmapRun, extra: seq<nat>)
    requires level <= 4 && |run.idx| == 4
  {
    && (forall p | IsPath(p, 4 - level) && Lookup(kids', p) != Lookup(kids, p) ::
          Lookup(kids', p) == Unmapped && PageAt(run, level, p) in extra)
    && (forall v | v in extra :: exists p :: IsPath(p, 4 - level) && PageAt(run, level, p) == v && Lookup(kids', p) == Unmapped)
  }

  /** Once spent, a run changes and invalidates nothing. */
  lemma {:induction false} SpentIdles(kids: seq<Node>, level: nat, run: UnmapRun, pages: nat)
    requires level <= PT_LAST_LEVEL && |run.idx| == 4 && Shaped(kids, level)
    requires Spent(run.idx, level) || run.idx[level] >= PT_LENGTH
    ensures var (kids', run') := UnmapFrom(kids, level, run, pages);
            kids' == kids && run'.flushed == run.flushed
    decreases PT_LAST_LEVEL - level, |kids| - run.idx[level], 1
  {
    var i := run.idx[level];
    if i < |kids| && run.done < pages {
      var (n, run1) := UnmapEntry(kids[i], level, run, pages);
      SpentIdlesIn(kids[i], level, run, pages);
      assert kids[i := n] == kids;
      if run1.done < pages {
        SpentStays(run1.idx, run1.idx[level := i + 1], level);
        SpentIdles(kids, level, run1.(idx := run1.idx[level := i + 1]), pages);
      }
    }
  }

  lemma {:induction false} SpentIdlesIn(n: Node, level: nat, run: UnmapRun, pages: nat)
    requires level <= PT_LAST_LEVEL && |run.idx| == 4 && ShapedIn(n, level) && Spent(run.idx, level)
    ensures var (n', run') := UnmapEntry(n, level, run, pages);
            n' == n && run'.flushed == run.flushed && Spent(run'.idx, level)
    decreases PT_LAST_LEVEL - level, 0
  {
    hide UnmapFrom, PagesPerEntry;
    UnmapEntryKeeps(n, level, run, pages);
    SpentStays(run.idx, UnmapEntry(n, level, run, pages).1.idx, level);
    if n.Branch? {
      SpentIdles(n.kids, level + 1, run.(done := 0), pages);
    }
  }

  /**
   * `recurse_unmap`, for any tables and any run: the address invalidated at each step is exactly the page whose
   * leaf slot was just cleared, and no slot is cleared without it.
   */
  lemma {:induction false} UnmapClears(kids: seq<Node>, level: nat, run: UnmapRun, pages: nat) returns (extra: seq<nat>)
    requires level <= PT_LAST_LEVEL && |run.idx| == 4 && Shaped(kids, level)
    requires !UnmapFrom(kids, level, run, pages).1.lost
    ensures var (kids', run') := UnmapFrom(kids, level, run, pages);
            run'.flushed == run.flushed + extra && Cleared(kids, kids', level, run, extra)
    decreases PT_LAST_LEVEL - level, |kids| - run.idx[level], 1
  {
    hide Cleared, ClearedIn, PagesPerEntry, PathFrom;
    var i := run.idx[level];
    extra := [];
    if Spent(run.idx, level) || i >= PT_LENGTH {
      SpentIdles(kids, level, run, pages);
      ClearedNone(kids, level, run);
    } else if run.done >= pages {
      ClearedNone(kids, level, run);
    } else {
      var (n, run1) := UnmapEntry(kids[i], level, run, pages);
      var run2 := run1.(idx := run1.idx[level := i + 1]);
      UnmapKeeps(kids[i := n], level, run2, pages);
      var here := UnmapEntryClears(kids[i], level, run, pages);
      ClearedAt(kids, i, n, level, run, here);
      extra := here;
      if run1.done < pages {
        if kids[i].Branch? {
          // the table below is used up: nothing more will be cleared
          BranchSpent(kids, level, run, pages);
          SpentIdles(kids[i := n], level, run2, pages);
        } else {
          EntryAims(kids[i], level, run, pages);
          var rest := UnmapClears(kids[i := n], level, run2, pages);
          extra := here + rest;
          ClearedTrans(kids, kids[i := n], UnmapFrom(kids[i := n], level, run2, pages).0, level, run, run2, here, rest);
        }
      }
    }
  }

  lemma ClearedNone(kids: seq<Node>, level: nat, run: UnmapRun)
    requires level <= 4 && |run.idx| == 4
    ensures Cleared(kids, kids, level, run, [])
  {
  }

  lemma BranchSpent(kids: seq<Node>, level: nat, run: UnmapRun, pages: nat)
    requires level <= PT_LAST_LEVEL && |run.idx| == 4 && run.idx[level] < |kids| && Shaped(kids, level) && run.done < pages
    requires kids[run.idx[level]].Branch?
    ensures var i := run.idx[level];
            var (n, run1) := UnmapEntry(kids[i], level, run, pages);
            Shaped(kids[i := n], level) && (run1.done < pages ==> Spent(run1.idx[level := i + 1], level))
  {
    hide UnmapFrom, PagesPerEntry;
    var i := run.idx[level];
    UnmapKeeps(kids[i].kids, level + 1, run.(done := 0), pages);
    UnmapShaped(kids[i].kids, level + 1, run.(done := 0), pages);
    var (n, run1) := UnmapEntry(kids[i], level, run, pages);
    assert ShapedIn(n, level);
    assert run1.done < pages ==> run1.idx[level := i + 1][level + 1] >= PT_LENGTH;
  }

  /** Stepping over a leaf slot or an absent table keeps the address aimed at the indices. */
  lemma EntryAims(n: Node, level: nat, run: UnmapRun, pages: nat)
    requires level <= PT_LAST_LEVEL && |run.idx| == 4 && !n.Branch? && ShapedIn(n, level) && !n.Foreign?
    ensures var run1 := UnmapEntry(n, level, run, pages).1;
            var idx1 := run1.idx[level := run.idx[level] + 1];
            run.page - Offset(PathFrom(run.idx, level), level) == run1.page - Offset(PathFrom(idx1, level), level)
  {
    SameRest(run.idx, UnmapEntry(n, level, run, pages).1.idx[level := run.idx[level] + 1], level + 1);
  }

  /** The same for one entry: pages are relative to its first slot. */
  lemma {:induction false} UnmapEntryClears(n: Node, level: nat, run: UnmapRun, pages: nat) returns (extra: seq<nat>)
    requires level <= PT_LAST_LEVEL && |run.idx| == 4 && ShapedIn(n, level)
    requires !UnmapEntry(n, level, run, pages).1.lost
    ensures var (n', run') := UnmapEntry(n, level, run, pages);
            run'.flushed == run.flushed + extra && ClearedIn(n, n', level, run, extra)
    decreases PT_LAST_LEVEL - level, 0
  {
    extra := [];
    if level == PT_LAST_LEVEL {
      extra := [run.page];
      assert forall p | IsPath(p, 0) :: p == End;
      assert PageAt(run, level + 1, End) == run.page && LookupIn(Hole, End) == Unmapped;
    } else if n.Branch? {
      extra := UnmapClears(n.kids, level + 1, run.(done := 0), pages);
      ClearedBelow(n.entry, n.kids, UnmapFrom(n.kids, level + 1, run.(done := 0), pages).0, level, run, extra);
    }
  }

  ghost predicate ClearedIn(n: Node, n': Node, level: nat, run: UnmapRun, extra: seq<nat>)
    requires level <= 3 && |run.idx| == 4
  {
    && (forall p | IsPath(p, 3 - level) && LookupIn(n', p) != LookupIn(n, p) ::
          LookupIn(n', p) == Unmapped && PageAt(run, level + 1, p) in extra)
    && (forall v | v in extra :: exists p :: IsPath(p, 3 - level) && PageAt(run, level + 1, p) == v && LookupIn(n', p) == Unmapped)
  }

  lemma ClearedAt(kids: seq<Node>, i: nat, n: Node, level: nat, run: UnmapRun, extra: seq<nat>)
    requires level <= 3 && |run.idx| == 4 && i == run.idx[level] < |kids| == PT_LENGTH
    requires ClearedIn(kids[i], n, level, run, extra)
    ensures Cleared(kids, kids[i := n], level, run, extra)
  {
    var kids' := kids[i := n];
    forall v | v in extra
      ensures exists p :: IsPath(p, 4 - level) && PageAt(run, level, p) == v && Lookup(kids', p) == Unmapped
    {
      var q :| IsPath(q, 3 - level) && PageAt(run, level + 1, q) == v && LookupIn(n, q) == Unmapped;
      assert Lookup(kids', At(i, q)) == Unmapped && PageAt(run, level, At(i, q)) == v;
    }
    forall p | IsPath(p, 4 - level) && Lookup(kids', p) != Lookup(kids, p)
      ensures Lookup(kids', p) == Unmapped && PageAt(run, level, p) in extra
    {
      assert p == At(i, p.rest);
    }
  }

  lemma ClearedBelow(e: Pte, kids: seq<Node>, kids': seq<Node>, level: nat, run: UnmapRun, extra: seq<nat>)
    requires level <= 3 && |run.idx| == 4 && Cleared(kids, kids', level + 1, run.(done := 0), extra)
    ensures ClearedIn(Branch(e, kids), Branch(e, kids'), level, run, extra)
  {
    forall v | v in extra
      ensures exists p :: IsPath(p, 3 - level) && PageAt(run, level + 1, p) == v && LookupIn(Branch(e, kids'), p) == Unmapped
    {
      var p :| IsPath(p, 3 - level) && PageAt(run.(done := 0), level + 1, p) == v && Lookup(kids', p) == Unmapped;
      assert LookupIn(Branch(e, kids'), p) == Unmapped;
    }
    forall p | IsPath(p, 3 - level) && LookupIn(Branch(e, kids'), p) != LookupIn(Branch(e, kids), p)
      ensures LookupIn(Branch(e, kids'), p) == Unmapped && PageAt(run, level + 1, p) in extra
    {
      assert Lookup(kids', p) != Lookup(kids, p);
      assert PageAt(run, level + 1, p) == PageAt(run.(done := 0), level + 1, p);
    }
  }

  lemma {:induction false} SameRest(idx: seq<nat>, idx': seq<nat>, level: nat)
    requires |idx| == |idx'| == 4 && level <= 4 && forall k | level <= k < 4 :: idx[k] == idx'[k]
    ensures PathFrom(idx, level) == PathFrom(idx', level)
    decreases 4 - level
  {
    if level < 4 {
      SameRest(idx, idx', level + 1);
    }
  }

  lemma ClearedTrans(kids: seq<Node>, kids1: seq<Node>, kids2: seq<Node>, level: nat, run: UnmapRun, run1: UnmapRun,
                     here: seq<nat>, rest: seq<nat>)
    requires level <= 4 && |run.idx| == |run1.idx| == 4
    requires run.page - Offset(PathFrom(run.idx, level), level) == run1.page - Offset(PathFrom(run1.idx, level), level)
    requires Cleared(kids, kids1, level, run, here) && Cleared(kids1, kids2, level, run1, rest)
    ensures Cleared(kids, kids2, level, run, here + rest)
  {
    forall v | v in here + rest
      ensures exists p :: IsPath(p, 4 - level) && PageAt(run, level, p) == v && Lookup(kids2, p) == Unmapped
    {
      if v in here {
        var p :| IsPath(p, 4 - level) && PageAt(run, level, p) == v && Lookup(kids1, p) == Unmapped;
        assert Lookup(kids2, p) == Unmapped;
      } else {
        var p :| IsPath(p, 4 - level) && PageAt(run1, level, p) == v && Lookup(kids2, p) == Unmapped;
        assert PageAt(run, level, p) == v;
      }
    }
    forall p | IsPath(p, 4 - level) && Lookup(kids2, p) != Lookup(kids, p)
      ensures Lookup(kids2, p) == Unmapped && PageAt(run, level, p) in here + rest
    {
      assert PageAt(run, level, p) == PageAt(run1, level, p);
    }
  }

  lemma {:induction false} UnmapShaped(kids: seq<Node>, level: nat, run: UnmapRun, pages: nat)
    requires level <= PT_LAST_LEVEL && |run.idx| == 4 && Shaped(kids, level)
    ensures Shaped(UnmapFrom(kids, level, run, pages).0, level)
    decreases PT_LAST_LEVEL - level, |kids| - run.idx[level]
  {
    var i := run.idx[level];
    if i < |kids| && run.done < pages {
      var (n, run1) := UnmapEntry(kids[i], level, run, pages);
      if kids[i].Branch? && level < PT_LAST_LEVEL {
        UnmapShaped(kids[i].kids, level + 1, run.(done := 0), pages);
      }
      if run1.done < pages {
        UnmapShaped(kids[i := n], level, run1.(idx := run1.idx[level := i + 1]), pages);
      }
    }
  }

  // ---- The count -----------------------------------------------------------------------------

  /** What has been counted is what has been invalidated and, in whole tables, what the absent entries stepped over would have led to. */
  ghost predicate CountsTables(run: UnmapRun, run': UnmapRun) {
    exists absent: nat :: run'.done == run.done + (|run'.flushed| - |run.flushed|) + absent * PT_LENGTH
  }

  lemma CountsNone(run: UnmapRun, run': UnmapRun)
    requires run'.done == run.done && run'.flushed == run.flushed
    ensures CountsTables(run, run')
  {
    assert run'.done == run.done + (|run'.flushed| - |run.flushed|) + 0 * PT_LENGTH;
  }

  lemma CountsTrans(run: UnmapRun, run1: UnmapRun, run2: UnmapRun)
    requires CountsTables(run, run1) && CountsTables(run1, run2)
    ensures CountsTables(run, run2)
  {
    var a: nat :| run1.done == run.done + (|run1.flushed| - |run.flushed|) + a * PT_LENGTH;
    var b: nat :| run2.done == run1.done + (|run2.flushed| - |run1.flushed|) + b * PT_LENGTH;
    assert run2.done == run.done + (|run2.flushed| - |run.flushed|) + (a + b) * PT_LENGTH;
  }

  /** Whatever the run, the number returned is the number of pages invalidated plus a number of whole tables. */
  lemma {:induction false} UnmapCounts(kids: seq<Node>, level: nat, run: UnmapRun, pages: nat)
    requires level <= PT_LAST_LEVEL && |run.idx| == 4
    ensures CountsTables(run, UnmapFrom(kids, level, run, pages).1)
    decreases PT_LAST_LEVEL - level, |kids| - run.idx[level], 1
  {
    hide CountsTables;
    var i := run.idx[level];
    if i >= |kids| || run.done >= pages {
      CountsNone(run, run);
    } else {
      var (n, run1) := UnmapEntry(kids[i], level, run, pages);
      var run2 := run1.(idx := run1.idx[level := i + 1]);
      UnmapEntryCounts(kids[i], level, run, pages);
      CountsNone(run1, run2);
      if run1.done < pages {
        UnmapCounts(kids[i := n], level, run2, pages);
        CountsTrans(run1, run2, UnmapFrom(kids[i := n], level, run2, pages).1);
        CountsTrans(run, run1, UnmapFrom(kids[i := n], level, run2, pages).1);
      }
    }
  }

  lemma {:induction false} UnmapEntryCounts(n: Node, level: nat, run: UnmapRun, pages: nat)
    requires level <= PT_LAST_LEVEL && |run.idx| == 4
    ensures CountsTables(run, UnmapEntry(n, level, run, pages).1)
    decreases PT_LAST_LEVEL - level, 0
  {
    var run' := UnmapEntry(n, level, run, pages).1;
    if level == PT_LAST_LEVEL {
      assert run'.done == run.done + (|run'.flushed| - |run.flushed|) + 0 * PT_LENGTH;
    } else {
      match n
      case Branch(_, kids) =>
        UnmapCounts(kids, level + 1, run.(done := 0), pages);
        var absent: nat :| UnmapFrom(kids, level + 1, run.(done := 0), pages).1.done == (|run'.flushed| - |run.flushed|) + absent * PT_LENGTH;
        assert run'.done == run.done + (|run'.flushed| - |run.flushed|) + absent * PT_LENGTH;
      case Hole =>
        assert run'.done == run.done + (|run'.flushed| - |run.flushed|) + PagesPerEntry(level + 1) * PT_LENGTH;
      case _ =>
        CountsNone(run, run');
    }
  }

  // ---- Runs within one leaf table ------------------------------------------------------------

  /** Slot `p` is among the `pages` slots from the indices on, all in the same leaf table. */
  predicate InRun(idx: seq<nat>, level: nat, pages: nat, p: Path)
    requires |idx| == 4 && level <= PT_LAST_LEVEL
    decreases PT_LAST_LEVEL - level
  {
    p.At? &&
    if level == PT_LAST_LEVEL then idx[level] <= p.index < idx[level] + pages && p.rest.End?
    else p.index == idx[level] && InRun(idx, level + 1, pages, p.rest)
  }

  /** The leaf table of the path at the indices exists. */
  predicate HasLeafTable(kids: seq<Node>, idx: seq<nat>, level: nat)
    requires |idx| == 4 && level <= PT_LAST_LEVEL
    decreases PT_LAST_LEVEL - level
  {
    level == PT_LAST_LEVEL ||
    (idx[level] < |kids| && kids[idx[level]].Branch? && HasLeafTable(kids[idx[level]].kids, idx, level + 1))
  }

  lemma {:induction false} UnmapLeafRun(kids: seq<Node>, run: UnmapRun, pages: nat)
    requires |run.idx| == 4 && run.done <= pages && run.idx[3] + (pages - run.done) <= |kids|
    ensures var (kids', run') := UnmapFrom(kids, PT_LAST_LEVEL, run, pages);
            && run'.done == pages && run'.lost == run.lost
            && forall j | 0 <= j < |kids| ::
                 kids'[j] == if run.idx[3] <= j < run.idx[3] + (pages - run.done) then Hole else kids[j]
    decreases pages - run.done
  {
    if run.done < pages {
      var i := run.idx[3];
      var (n, run1) := UnmapEntry(kids[i], PT_LAST_LEVEL, run, pages);
      if run1.done < pages {
        UnmapLeafRun(kids[i := n], run1.(idx := run1.idx[3 := i + 1]), pages);
      }
    }
  }

  /** A run that ends below the first entry leaves the others alone. */
  lemma OneBranch(kids: seq<Node>, level: nat, run: UnmapRun, pages: nat)
    requires level < PT_LAST_LEVEL && |run.idx| == 4 && run.idx[level] < |kids| && kids[run.idx[level]].Branch? && run.done == 0 < pages
    requires UnmapFrom(kids[run.idx[level]].kids, level + 1, run, pages).1.done >= pages
    ensures var i := run.idx[level];
            var (sub, run') := UnmapFrom(kids[i].kids, level + 1, run, pages);
            UnmapFrom(kids, level, run, pages) == (kids[i := Branch(kids[i].entry, sub)], run')
  {
    assert run.(done := 0) == run;
    hide PagesPerEntry;
  }

  /** Unmapping a run within one leaf table makes exactly its pages untranslatable. */
  lemma {:induction false} UnmapOneLeaf(kids: seq<Node>, level: nat, run: UnmapRun, pages: nat)
    requires level <= PT_LAST_LEVEL && |run.idx| == 4 && Shaped(kids, level) && IsPath(PathFrom(run.idx, level), 4 - level)
    requires run.done == 0 < pages && run.idx[3] + pages <= PT_LENGTH
    requires !Lookup(kids, PathFrom(run.idx, level)).Outside?
    ensures var (kids', run') := UnmapFrom(kids, level, run, pages);
            && run'.lost == run.lost && run'.done >= pages
            && (HasLeafTable(kids, run.idx, level) ==> run'.done == pages)
            && forall p | IsPath(p, 4 - level) ::
                 Lookup(kids', p) == if InRun(run.idx, level, pages, p) then Unmapped else Lookup(kids, p)
    decreases PT_LAST_LEVEL - level
  {
    var i := run.idx[level];
    if level == PT_LAST_LEVEL {
      UnmapLeafRun(kids, run, pages);
    } else if kids[i].Branch? {
      UnmapOneLeaf(kids[i].kids, level + 1, run, pages);
      OneBranch(kids, level, run, pages);
      hide UnmapFrom, PagesPerEntry;
    } else {
      EntryCovers(level, run.idx[3], pages);
      HoleRun(kids, level, run.idx, pages);
    }
  }

  lemma {:induction false} EntryCovers(level: nat, i: nat, pages: nat)
    requires level < PT_LAST_LEVEL && i + pages <= PT_LENGTH
    ensures pages <= PagesPerEntry(level)
    decreases PT_LAST_LEVEL - level
  {
    if level + 1 < PT_LAST_LEVEL {
      EntryCovers(level + 1, i, pages);
    }
  }

  /** An absent entry on the path: the whole run is unmapped. */
  lemma HoleRun(kids: seq<Node>, level: nat, idx: seq<nat>, pages: nat)
    requires level < PT_LAST_LEVEL && |idx| == 4 && idx[level] < |kids| && kids[idx[level]].Hole?
    ensures forall p | InRun(idx, level, pages, p) :: Lookup(kids, p) == Unmapped
  {
  }
}
