/**
 * Exactly which pages `recurse_unmap` clears, for any run: it goes on to the first leaf table it meets, clears slots
 * there, from the last start index on, and then no more, because its lower indices have run off.
 */
module PageStrike {
  import opened Paging
  import opened PageTree
  import opened PageMap
  import opened PageFlag
  import opened PageUnmap
  import opened PageView

  datatype Target = Nowhere | There(at: seq<nat>)

  /** Where the first slot is cleared: absent entries are stepped over as whole tables, the first present one is entered. */
  function Strike(kids: seq<Node>, level: nat, idx: seq<nat>, i: nat, done: nat, pages: nat): (r: Target)
    requires level <= PT_LAST_LEVEL && |idx| == 4
    ensures r.There? ==> |r.at| == 4 && r.at[..level] == idx[..level]
    decreases PT_LAST_LEVEL - level, |kids| - i
  {
    if i >= |kids| || done >= pages then Nowhere
    else if level == PT_LAST_LEVEL then There(idx[PT_LAST_LEVEL := i])
    else
      match kids[i]
      case Hole => Strike(kids, level, idx, i + 1, done + PagesPerEntry(level), pages)
      case Branch(_, sub) =>
        var r := Strike(sub, level + 1, idx[level := i], idx[level + 1], 0, pages);
        assert r.There? ==> r.at[..level] == r.at[..level + 1][..level] == idx[level := i][..level] == idx[..level];
        r
      case _ => Nowhere
  }

  /** Slot `p` is cleared. */
  predicate Struck(r: Target, level: nat, n: nat, p: Path)
    requires level <= PT_LAST_LEVEL && (r.There? ==> |r.at| == 4)
  {
    r.There? && InRun(r.at, level, n, p)
  }

  /** At the last level, as many slots as are asked for, as far as the table goes. */
  lemma {:induction false} StrikeLeaf(kids: seq<Node>, run: UnmapRun, pages: nat)
    requires |run.idx| == 4
    ensures forall j | 0 <= j < |kids| ::
              UnmapFrom(kids, PT_LAST_LEVEL, run, pages).0[j] == if run.idx[3] <= j < run.idx[3] + (pages - run.done) then Hole else kids[j]
    decreases |kids| - run.idx[3]
  {
    var i := run.idx[3];
    if i < |kids| && run.done < pages {
      var (n, run1) := UnmapEntry(kids[i], PT_LAST_LEVEL, run, pages);
      if run1.done < pages {
        StrikeLeaf(kids[i := n], run1.(idx := run1.idx[3 := i + 1]), pages);
      }
    }
  }

  /** What has been cleared, of a table and below one entry. */
  ghost predicate Strikes(kids: seq<Node>, kids': seq<Node>, level: nat, r: Target, n: nat)
    requires level <= PT_LAST_LEVEL && (r.There? ==> |r.at| == 4)
  {
    forall p | IsPath(p, 4 - level) :: Lookup(kids', p) == if Struck(r, level, n, p) then Unmapped else Lookup(kids, p)
  }

  lemma LeafStrikes(kids: seq<Node>, kids': seq<Node>, at: seq<nat>, n: nat)
    requires |at| == 4 && |kids| == |kids'| == PT_LENGTH
    requires forall j | 0 <= j < PT_LENGTH :: kids'[j] == if at[3] <= j < at[3] + n then Hole else kids[j]
    ensures Strikes(kids, kids', PT_LAST_LEVEL, There(at), n)
  {
    forall p | IsPath(p, 1)
      ensures Lookup(kids', p) == if Struck(There(at), PT_LAST_LEVEL, n, p) then Unmapped else Lookup(kids, p)
    {
      assert IsPath(p.rest, 0);
      assert Lookup(kids', p) == LookupIn(kids'[p.index], End) && Lookup(kids, p) == LookupIn(kids[p.index], End);
    }
  }

  lemma NothingStrikes(kids: seq<Node>, level: nat, n: nat)
    requires level <= PT_LAST_LEVEL
    ensures Strikes(kids, kids, level, Nowhere, n)
  {
  }

  lemma StrikesBelow(kids: seq<Node>, i: nat, sub': seq<Node>, level: nat, r: Target, n: nat)
    requires level < PT_LAST_LEVEL && i < |kids| == PT_LENGTH && kids[i].Branch? && (r.There? ==> |r.at| == 4 && r.at[level] == i)
    requires Strikes(kids[i].kids, sub', level + 1, r, n)
    ensures Strikes(kids, kids[i := Branch(kids[i].entry, sub')], level, r, n)
  {
    var kids' := kids[i := Branch(kids[i].entry, sub')];
    forall p | IsPath(p, 4 - level)
      ensures Lookup(kids', p) == if Struck(r, level, n, p) then Unmapped else Lookup(kids, p)
    {
      assert IsPath(p.rest, 3 - level);
      if p.index == i {
        assert Lookup(kids', p) == LookupIn(kids'[i], p.rest) == Lookup(sub', p.rest);
        assert Lookup(kids, p) == LookupIn(kids[i], p.rest) == Lookup(kids[i].kids, p.rest);
      }
    }
  }

  lemma StrikeSkips(kids: seq<Node>, level: nat, idx: seq<nat>, i: nat, done: nat, pages: nat)
    requires level < PT_LAST_LEVEL && |idx| == 4 && i < |kids| && done < pages && kids[i].Hole?
    ensures Strike(kids, level, idx, i, done, pages) == Strike(kids, level, idx, i + 1, done + PagesPerEntry(level), pages)
  {
  }

  lemma StrikeEnds(kids: seq<Node>, level: nat, idx: seq<nat>, i: nat, done: nat, pages: nat)
    requires level <= PT_LAST_LEVEL && |idx| == 4
    ensures i >= |kids| || done >= pages ==> Strike(kids, level, idx, i, done, pages) == Nowhere
    ensures i < |kids| && done < pages && level == PT_LAST_LEVEL ==>
              Strike(kids, level, idx, i, done, pages) == There(idx[PT_LAST_LEVEL := i])
  {
  }

  /** The run after an absent entry has been stepped over. */
  function StepOver(level: nat, run: UnmapRun): UnmapRun
    requires level < PT_LAST_LEVEL && |run.idx| == 4
  {
    run.(idx := run.idx[level := run.idx[level] + 1], page := run.page + PagesPerEntry(level), done := run.done + PagesPerEntry(level))
  }

  lemma HoleTurn(kids: seq<Node>, level: nat, run: UnmapRun, pages: nat)
    requires level < PT_LAST_LEVEL && |run.idx| == 4 && run.idx[level] < |kids| && run.done < pages && kids[run.idx[level]].Hole?
    ensures var run2, goal := StepOver(level, run), UnmapFrom(kids, level, run, pages);
            if run2.done >= pages then goal.0 == kids && goal.1 == run2.(idx := run.idx) else goal == UnmapFrom(kids, level, run2, pages)
  {
    UnmapTurn(kids, level, run, pages);
    assert kids[run.idx[level] := kids[run.idx[level]]] == kids;
  }

  /** An entry above the last level that is no table is absent, or the run is lost there. */
  lemma OnlyHoles(kids: seq<Node>, level: nat, run: UnmapRun, pages: nat)
    requires level < PT_LAST_LEVEL && |run.idx| == 4 && run.idx[level] < |kids| && run.done < pages && ShapedIn(kids[run.idx[level]], level)
    requires !kids[run.idx[level]].Branch? && !UnmapFrom(kids, level, run, pages).1.lost
    ensures kids[run.idx[level]].Hole?
  {
    UnmapTurn(kids, level, run, pages);
  }

  /** A present entry is entered; once its table has been left, nothing more is cleared or invalidated. */
  lemma EnterStrike(kids: seq<Node>, level: nat, idx: seq<nat>, run: UnmapRun, pages: nat)
    requires level < PT_LAST_LEVEL && |idx| == |run.idx| == 4 && Shaped(kids, level) && run.idx[level] < |kids| && run.done < pages
    requires kids[run.idx[level]].Branch? && idx[level + 1] == run.idx[level + 1] && !UnmapFrom(kids, level, run, pages).1.lost
    ensures var i := run.idx[level];
            var sub := UnmapFrom(kids[i].kids, level + 1, run.(done := 0), pages);
            var goal := UnmapFrom(kids, level, run, pages);
            var r := Strike(kids[i].kids, level + 1, idx[level := i], idx[level + 1], 0, pages);
            && goal.0 == kids[i := Branch(kids[i].entry, sub.0)] && goal.1.flushed == sub.1.flushed && !sub.1.lost
            && Strike(kids, level, idx, i, run.done, pages) == r && (r.There? ==> r.at[level] == i)
  {
    hide PagesPerEntry;
    var i := run.idx[level];
    UnmapTurn(kids, level, run, pages);
    BranchSpent(kids, level, run, pages);
    var (n, run1) := UnmapEntry(kids[i], level, run, pages);
    if run1.done < pages {
      SpentIdles(kids[i := n], level, run1.(idx := run1.idx[level := i + 1]), pages);
    }
    var r := Strike(kids[i].kids, level + 1, idx[level := i], idx[level + 1], 0, pages);
    assert r.There? ==> r.at[..level + 1][level] == idx[level := i][..level + 1][level];
  }

  /** For any tables and any run that stays inside them: slots are cleared in one leaf table at most, and these. */
  lemma {:induction false} UnmapStrikes(kids: seq<Node>, level: nat, idx: seq<nat>, run: UnmapRun, pages: nat)
    requires level <= PT_LAST_LEVEL && |idx| == |run.idx| == 4 && Shaped(kids, level)
    requires forall k | level < k < 4 :: run.idx[k] == idx[k]
    requires !UnmapFrom(kids, level, run, pages).1.lost && (level == PT_LAST_LEVEL ==> run.done == 0)
    ensures Strikes(kids, UnmapFrom(kids, level, run, pages).0, level, Strike(kids, level, idx, run.idx[level], run.done, pages), pages)
    decreases PT_LAST_LEVEL - level, |kids| - run.idx[level]
  {
    hide Strikes, PagesPerEntry, Strike;
    var i := run.idx[level];
    StrikeEnds(kids, level, idx, i, run.done, pages);
    if i >= |kids| || run.done >= pages {
      UnmapEnd(kids, level, run, pages);
      NothingStrikes(kids, level, pages);
    } else if level == PT_LAST_LEVEL {
      StrikeLeaf(kids, run, pages);
      LeafStrikes(kids, UnmapFrom(kids, level, run, pages).0, idx[PT_LAST_LEVEL := i], pages);
    } else {
      assert ShapedIn(kids[i], level);
      if kids[i].Branch? {
        EnterStrike(kids, level, idx, run, pages);
        UnmapStrikes(kids[i].kids, level + 1, idx[level := i], run.(done := 0), pages);
        var r := Strike(kids[i].kids, level + 1, idx[level := i], idx[level + 1], 0, pages);
        StrikesBelow(kids, i, UnmapFrom(kids[i].kids, level + 1, run.(done := 0), pages).0, level, r, pages);
      } else {
        OnlyHoles(kids, level, run, pages);
        HoleTurn(kids, level, run, pages);
        StrikeSkips(kids, level, idx, i, run.done, pages);
        var run2 := StepOver(level, run);
        StrikeEnds(kids, level, idx, i + 1, run2.done, pages);
        hide UnmapFrom;
        if run2.done < pages {
          UnmapStrikes(kids, level, idx, run2, pages);
        } else {
          NothingStrikes(kids, level, pages);
        }
      }
    }
  }

  // ---- The pages invalidated -----------------------------------------------------------------

  /** `n` pages from `first` on, in ascending order. */
  function PagesFrom(first: int, n: nat): (r: seq<int>)
    ensures |r| == n && forall k | 0 <= k < n :: r[k] == first + k
  {
    seq(n, k requires 0 <= k => first + k)
  }

  /** The pages invalidated since are those of the slots struck, one by one in ascending order. */
  ghost predicate Swept(run: UnmapRun, level: nat, r: Target, pages: nat, flushed: seq<nat>)
    requires level <= PT_LAST_LEVEL && |run.idx| == 4 && (r.There? ==> |r.at| == 4)
  {
    match r
    case Nowhere => flushed == run.flushed
    case There(at) =>
      && at[3] < PT_LENGTH
      && flushed == run.flushed + PagesFrom(PageAt(run, level, PathFrom(at, level)), Min(pages, PT_LENGTH - at[3]))
  }

  lemma {:induction false} SweepLeaf(kids: seq<Node>, run: UnmapRun, pages: nat)
    requires |run.idx| == 4 && run.idx[3] <= |kids| && run.done <= pages
    ensures UnmapFrom(kids, PT_LAST_LEVEL, run, pages).1.flushed ==
              run.flushed + PagesFrom(run.page, Min(pages - run.done, |kids| - run.idx[3]))
    decreases |kids| - run.idx[3]
  {
    var i := run.idx[3];
    if i < |kids| && run.done < pages {
      var (n, run1) := UnmapEntry(kids[i], PT_LAST_LEVEL, run, pages);
      var rest := Min(pages - run1.done, |kids| - (i + 1));
      assert [run.page] + PagesFrom(run.page + 1, rest) == PagesFrom(run.page, rest + 1);
      if run1.done < pages {
        SweepLeaf(kids[i := n], run1.(idx := run1.idx[3 := i + 1]), pages);
      }
    }
  }

  lemma SweptHere(run: UnmapRun, idx: seq<nat>, pages: nat, flushed: seq<nat>)
    requires |idx| == |run.idx| == 4 && run.idx[3] < PT_LENGTH
    requires flushed == run.flushed + PagesFrom(run.page, Min(pages, PT_LENGTH - run.idx[3]))
    ensures Swept(run, PT_LAST_LEVEL, There(idx[PT_LAST_LEVEL := run.idx[3]]), pages, flushed)
  {
    var at := idx[PT_LAST_LEVEL := run.idx[3]];
    assert PathFrom(at, 3) == At(at[3], PathFrom(at, 4)) && PathFrom(run.idx, 3) == At(run.idx[3], PathFrom(run.idx, 4));
    assert PathFrom(at, 3) == PathFrom(run.idx, 3);
  }

  /** A slot below the entry at the index is the same page seen from above it. */
  lemma SweptBelow(run: UnmapRun, level: nat, r: Target, pages: nat, flushed: seq<nat>)
    requires level < PT_LAST_LEVEL && |run.idx| == 4 && (r.There? ==> |r.at| == 4 && r.at[level] == run.idx[level])
    requires Swept(run.(done := 0), level + 1, r, pages, flushed)
    ensures Swept(run, level, r, pages, flushed)
  {
    hide PagesPerEntry;
    if r.There? {
      assert PathFrom(r.at, level) == At(r.at[level], PathFrom(r.at, level + 1));
      assert PathFrom(run.idx, level) == At(run.idx[level], PathFrom(run.idx, level + 1));
    }
  }

  /** The address stays aimed at the indices when an absent entry is stepped over. */
  lemma SweptAfter(run: UnmapRun, level: nat, r: Target, pages: nat, flushed: seq<nat>)
    requires level < PT_LAST_LEVEL && |run.idx| == 4 && (r.There? ==> |r.at| == 4)
    requires Swept(StepOver(level, run), level, r, pages, flushed)
    ensures Swept(run, level, r, pages, flushed)
  {
    var run2 := StepOver(level, run);
    SameRest(run.idx, run2.idx, level + 1);
    hide PagesPerEntry;
    assert PathFrom(run.idx, level) == At(run.idx[level], PathFrom(run.idx, level + 1));
    assert PathFrom(run2.idx, level) == At(run2.idx[level], PathFrom(run2.idx, level + 1));
    assert run2.idx[level] * PagesPerEntry(level) == run.idx[level] * PagesPerEntry(level) + PagesPerEntry(level);
    assert forall p :: PageAt(run2, level, p) == PageAt(run, level, p);
  }

  /** For any tables and any run that stays inside them: the pages invalidated are exactly those of the slots cleared, in ascending order. */
  lemma {:induction false} UnmapSweeps(kids: seq<Node>, level: nat, idx: seq<nat>, run: UnmapRun, pages: nat)
    requires level <= PT_LAST_LEVEL && |idx| == |run.idx| == 4 && Shaped(kids, level)
    requires forall k | level < k < 4 :: run.idx[k] == idx[k]
    requires !UnmapFrom(kids, level, run, pages).1.lost && (level == PT_LAST_LEVEL ==> run.done == 0)
    ensures Swept(run, level, Strike(kids, level, idx, run.idx[level], run.done, pages), pages, UnmapFrom(kids, level, run, pages).1.flushed)
    decreases PT_LAST_LEVEL - level, |kids| - run.idx[level]
  {
    hide Swept, PagesPerEntry, Strike;
    var i := run.idx[level];
    StrikeEnds(kids, level, idx, i, run.done, pages);
    if i >= |kids| || run.done >= pages {
      UnmapEnd(kids, level, run, pages);
      NothingSwept(run, level, pages);
    } else if level == PT_LAST_LEVEL {
      SweepLeaf(kids, run, pages);
      SweptHere(run, idx, pages, UnmapFrom(kids, level, run, pages).1.flushed);
    } else {
      assert ShapedIn(kids[i], level);
      if kids[i].Branch? {
        EnterStrike(kids, level, idx, run, pages);
        UnmapSweeps(kids[i].kids, level + 1, idx[level := i], run.(done := 0), pages);
        var r := Strike(kids[i].kids, level + 1, idx[level := i], idx[level + 1], 0, pages);
        SweptBelow(run, level, r, pages, UnmapFrom(kids, level, run, pages).1.flushed);
      } else {
        OnlyHoles(kids, level, run, pages);
        HoleTurn(kids, level, run, pages);
        StrikeSkips(kids, level, idx, i, run.done, pages);
        var run2 := StepOver(level, run);
        StrikeEnds(kids, level, idx, i + 1, run2.done, pages);
        var flushed := UnmapFrom(kids, level, run, pages).1.flushed;
        hide UnmapFrom;
        if run2.done < pages {
          UnmapSweeps(kids, level, idx, run2, pages);
        } else {
          NothingSwept(run2, level, pages);
        }
        SweptAfter(run, level, Strike(kids, level, idx, i, run.done, pages), pages, flushed);
      }
    }
  }

  lemma NothingSwept(run: UnmapRun, level: nat, pages: nat)
    requires level <= PT_LAST_LEVEL && |run.idx| == 4
    ensures Swept(run, level, Nowhere, pages, run.flushed)
  {
  }

  // ---- As pages ------------------------------------------------------------------------------

  /** A present upper entry that is struck below is where the strike goes. */
  lemma StrikeEnters(kids: seq<Node>, level: nat, idx: seq<nat>, i: nat, done: nat, pages: nat)
    requires level < PT_LAST_LEVEL && |idx| == 4 && i < |kids| && kids[i].Branch? && done < pages
    ensures Strike(kids, level, idx, i, done, pages) == Strike(kids[i].kids, level + 1, idx[level := i], idx[level + 1], 0, pages)
  {
    hide PagesPerEntry;
  }

  lemma {:induction false} StrikeBounds(kids: seq<Node>, level: nat, idx: seq<nat>, i: nat, done: nat, pages: nat)
    requires level <= PT_LAST_LEVEL && |idx| == 4 && Shaped(kids, level)
    ensures var r := Strike(kids, level, idx, i, done, pages);
            r.There? ==> forall k | level <= k < 4 :: r.at[k] < PT_LENGTH
    decreases PT_LAST_LEVEL - level, |kids| - i
  {
    hide PagesPerEntry;
    if i < |kids| && done < pages && level < PT_LAST_LEVEL {
      assert ShapedIn(kids[i], level);
      if kids[i].Branch? {
        StrikeBounds(kids[i].kids, level + 1, idx[level := i], idx[level + 1], 0, pages);
        var r := Strike(kids[i].kids, level + 1, idx[level := i], idx[level + 1], 0, pages);
        assert r.There? ==> r.at[level] == r.at[..level + 1][level] == i;
        StrikeEnters(kids, level, idx, i, done, pages);
      } else if kids[i].Hole? {
        var next := done + PagesPerEntry(level);
        StrikeBounds(kids, level, idx, i + 1, next, pages);
        StrikeSkips(kids, level, idx, i, done, pages);
      } else {
        assert Strike(kids, level, idx, i, done, pages) == Nowhere;
      }
    }
  }

  /** The first page an unmapping clears, if it clears any. */
  function FirstStruck(tree: seq<Node>, page: nat, pages: nat): Target {
    Strike(tree, 0, Indices(page), Indices(page)[0], 0, pages)
  }

  function PageNumber(at: seq<nat>): nat
    requires |at| == 4
  {
    at[0] * 0x800_0000 + at[1] * 0x4_0000 + at[2] * PT_LENGTH + at[3]
  }

  /** An unmapping clears as many pages as it was asked for, as far as the leaf table goes, from the first one struck. */
  predicate IsStruck(tree: seq<Node>, page: nat, pages: nat, v: nat) {
    var r := FirstStruck(tree, page, pages);
    r.There? && PageNumber(r.at) <= v < PageNumber(r.at) + pages && v / PT_LENGTH == PageNumber(r.at) / PT_LENGTH
  }

  lemma NumberIs(at: seq<nat>)
    requires |at| == 4 && forall k | 0 <= k < 4 :: at[k] < PT_LENGTH
    ensures Indices(PageNumber(at)) == at && PageNumber(at) < PAGE_LIMIT
  {
    DigitsOf(at[0], at[1], at[2], at[3]);
  }

  lemma StruckPages(at: seq<nat>, pages: nat, v: nat)
    requires |at| == 4 && (forall k | 0 <= k < 4 :: at[k] < PT_LENGTH) && v < PAGE_LIMIT
    ensures PageNumber(at) < PAGE_LIMIT
    ensures InRun(at, 0, pages, PathOf(v)) <==>
              PageNumber(at) <= v < PageNumber(at) + pages && v / PT_LENGTH == PageNumber(at) / PT_LENGTH
  {
    var q := PageNumber(at);
    NumberIs(at);
    SameTable(q, v);
    InRunIs(at, pages, Indices(v));
    Digits(v);
    assert v / PT_LENGTH == q / PT_LENGTH ==> v - q == v % PT_LENGTH - q % PT_LENGTH;
  }

  /** Exactly the pages struck are untranslatable afterwards, besides those that were so before; no other translation changes. */
  lemma UnmapExact(tree: seq<Node>, page: nat, pages: nat, v: nat)
    requires Shaped(tree, 0) && page < PAGE_LIMIT && v < PAGE_LIMIT
    requires !UnmapFrom(tree, 0, UnmapRun(Indices(page), page, 0, [], false), pages).1.lost
    ensures var tree' := UnmapFrom(tree, 0, UnmapRun(Indices(page), page, 0, [], false), pages).0;
            View(tree', v) == if IsStruck(tree, page, pages, v) then Unmapped else View(tree, v)
  {
    var idx := Indices(page);
    var run := UnmapRun(idx, page, 0, [], false);
    hide UnmapFrom, Indices, Strike, PathOf;
    UnmapStrikes(tree, 0, idx, run, pages);
    StrikeBounds(tree, 0, idx, idx[0], 0, pages);
    PathIs(v);
    var r := FirstStruck(tree, page, pages);
    assert Struck(r, 0, pages, PathOf(v)) <==> r.There? && InRun(r.at, 0, pages, PathOf(v));
    if r.There? {
      StruckPages(r.at, pages, v);
    }
  }

  /** How many pages an unmapping clears: those asked for, as far as the leaf table goes. */
  function StruckCount(at: seq<nat>, pages: nat): nat
    requires |at| == 4
  {
    if at[3] < PT_LENGTH then Min(pages, PT_LENGTH - at[3]) else 0
  }

  /** The pages invalidated are exactly the pages struck, in ascending order. */
  lemma FlushedStruck(tree: seq<Node>, page: nat, pages: nat)
    requires Shaped(tree, 0) && page < PAGE_LIMIT
    requires !UnmapFrom(tree, 0, UnmapRun(Indices(page), page, 0, [], false), pages).1.lost
    ensures var flushed, r := UnmapFrom(tree, 0, UnmapRun(Indices(page), page, 0, [], false), pages).1.flushed, FirstStruck(tree, page, pages);
            && flushed == (if r.There? then PagesFrom(PageNumber(r.at), StruckCount(r.at, pages)) else [])
            && forall v: nat | v < PAGE_LIMIT :: v in flushed <==> IsStruck(tree, page, pages, v)
  {
    var idx := Indices(page);
    var run := UnmapRun(idx, page, 0, [], false);
    hide UnmapFrom, Indices, Strike;
    UnmapSweeps(tree, 0, idx, run, pages);
    StrikeBounds(tree, 0, idx, idx[0], 0, pages);
    var flushed, r := UnmapFrom(tree, 0, run, pages).1.flushed, FirstStruck(tree, page, pages);
    if r.There? {
      AimedAt(page, run, r.at);
      forall v: nat | v < PAGE_LIMIT
        ensures v in flushed <==> IsStruck(tree, page, pages, v)
      {
        InPagesFrom(PageNumber(r.at), StruckCount(r.at, pages), v);
        StruckBounds(r.at, pages, v);
      }
    }
  }

  lemma InPagesFrom(first: nat, n: nat, v: nat)
    ensures v in PagesFrom(first, n) <==> first <= v < first + n
  {
    if first <= v < first + n { assert PagesFrom(first, n)[v - first] == v; }
  }

  lemma AimedAt(page: nat, run: UnmapRun, at: seq<nat>)
    requires page < PAGE_LIMIT && run.idx == Indices(page) && run.page == page && |at| == 4 && forall k | 0 <= k < 4 :: at[k] < PT_LENGTH
    ensures PageAt(run, 0, PathFrom(at, 0)) == PageNumber(at)
  {
    var q := PageNumber(at);
    NumberIs(at);
    hide Indices, PageNumber, PathOf, Offset;
    PathIs(page);
    PathIs(q);
    OffsetOf(page);
    OffsetOf(q);
  }

  lemma StruckBounds(at: seq<nat>, pages: nat, v: nat)
    requires |at| == 4 && at[3] < PT_LENGTH
    ensures PageNumber(at) <= v < PageNumber(at) + StruckCount(at, pages) <==>
              PageNumber(at) <= v < PageNumber(at) + pages && v / PT_LENGTH == PageNumber(at) / PT_LENGTH
  {
    var q, t := PageNumber(at), at[0] * 0x4_0000 + at[1] * PT_LENGTH + at[2];
    assert q == t * PT_LENGTH + at[3];
    assert q / PT_LENGTH == t;
  }

  /** Where the leaf table of the first page exists, the run strikes there: it stops at the end of that table. */
  lemma {:induction false} StrikeHere(kids: seq<Node>, level: nat, idx: seq<nat>, pages: nat)
    requires level <= PT_LAST_LEVEL && |idx| == 4 && HasLeafTable(kids, idx, level) && 0 < pages && idx[3] < |kids| == PT_LENGTH && Shaped(kids, level)
    ensures Strike(kids, level, idx, idx[level], 0, pages) == There(idx)
    decreases PT_LAST_LEVEL - level
  {
    if level < PT_LAST_LEVEL {
      assert ShapedIn(kids[idx[level]], level);
      assert Shaped(kids[idx[level]].kids, level + 1);
      StrikeHere(kids[idx[level]].kids, level + 1, idx, pages);
      assert idx[level := idx[level]] == idx;
    } else {
      assert idx[3 := idx[3]] == idx;
    }
  }

  /**
   * Where it does not and the next one does, the run strikes in the next one, at the same index and for the full number
   * of pages: one page more than a table asked for, from the beginning of an absent table on, clears the whole of the next.
   */
  lemma StrikeNext(kids: seq<Node>, idx: seq<nat>, i: nat, pages: nat)
    requires |idx| == 4 && i + 1 < |kids| && kids[i].Hole? && kids[i + 1].Branch? && |kids[i + 1].kids| == PT_LENGTH
    requires PT_LENGTH < pages && idx[3] < PT_LENGTH
    ensures Strike(kids, 2, idx, i, 0, pages) == There(idx[2 := i + 1])
  {
    assert PagesPerEntry(2) == PT_LENGTH;
    var sub, idx1 := kids[i + 1].kids, idx[2 := i + 1];
    assert Strike(sub, 3, idx1, idx1[3], 0, pages) == There(idx1[3 := idx1[3]]) == There(idx1);
    assert Strike(kids, 2, idx, i, 0, pages) == Strike(kids, 2, idx, i + 1, PT_LENGTH, pages);
  }

  /** Exactly the range becomes untranslatable if and only if the pages struck and those of the range differ in unmapped pages alone. */
  lemma UnmapsRangeIff(tree: seq<Node>, page: nat, pages: nat)
    requires Shaped(tree, 0) && page < PAGE_LIMIT
    requires !UnmapFrom(tree, 0, UnmapRun(Indices(page), page, 0, [], false), pages).1.lost
    ensures UnmapsRange(tree, UnmapFrom(tree, 0, UnmapRun(Indices(page), page, 0, [], false), pages).0, page, pages) <==>
              forall v: nat | v < PAGE_LIMIT && IsStruck(tree, page, pages, v) != (page <= v < page + pages) :: View(tree, v) == Unmapped
  {
    hide UnmapFrom, Indices, IsStruck, View;
    forall v: nat | v < PAGE_LIMIT
      ensures View(UnmapFrom(tree, 0, UnmapRun(Indices(page), page, 0, [], false), pages).0, v) ==
                if IsStruck(tree, page, pages, v) then Unmapped else View(tree, v)
    {
      UnmapExact(tree, page, pages, v);
    }
  }

  /** Where the first page's leaf table exists: if and only if the pages of the range beyond that table were unmapped before. */
  lemma UnmapsRangeHere(tree: seq<Node>, page: nat, pages: nat)
    requires Shaped(tree, 0) && page < PAGE_LIMIT && 0 < pages && HasLeafTable(tree, Indices(page), 0)
    requires !UnmapFrom(tree, 0, UnmapRun(Indices(page), page, 0, [], false), pages).1.lost
    ensures UnmapsRange(tree, UnmapFrom(tree, 0, UnmapRun(Indices(page), page, 0, [], false), pages).0, page, pages) <==>
              forall v: nat | v < PAGE_LIMIT && page <= v < page + pages && v / PT_LENGTH != page / PT_LENGTH :: View(tree, v) == Unmapped
  {
    UnmapsRangeIff(tree, page, pages);
    StrikeHere(tree, 0, Indices(page), pages);
    Digits(page);
    assert FirstStruck(tree, page, pages) == There(Indices(page)) && PageNumber(Indices(page)) == page;
    hide UnmapFrom, Indices, View, UnmapsRange, FirstStruck;
    assert forall v: nat | v < PAGE_LIMIT :: IsStruck(tree, page, pages, v) <==>
        page <= v < page + pages && v / PT_LENGTH == page / PT_LENGTH;
  }

  /** How many pages an unmapping clears. */
  function StruckTotal(tree: seq<Node>, page: nat, pages: nat): nat {
    match FirstStruck(tree, page, pages)
    case There(at) => StruckCount(at, pages)
    case Nowhere => 0
  }

  /** The number returned: the pages cleared, and whole tables for absent entries stepped over. */
  lemma CountStruck(tree: seq<Node>, page: nat, pages: nat)
    requires Shaped(tree, 0) && page < PAGE_LIMIT
    requires !UnmapFrom(tree, 0, UnmapRun(Indices(page), page, 0, [], false), pages).1.lost
    ensures var done := UnmapFrom(tree, 0, UnmapRun(Indices(page), page, 0, [], false), pages).1.done;
            done >= StruckTotal(tree, page, pages) && (done - StruckTotal(tree, page, pages)) % PT_LENGTH == 0
  {
    hide UnmapFrom, Indices, FirstStruck;
    var run := UnmapRun(Indices(page), page, 0, [], false);
    FlushedStruck(tree, page, pages);
    UnmapCounts(tree, 0, run, pages);
    var run' := UnmapFrom(tree, 0, run, pages).1;
    var absent: nat :| run'.done == run.done + (|run'.flushed| - |run.flushed|) + absent * PT_LENGTH;
    assert absent * PT_LENGTH % PT_LENGTH == 0;
  }
}
