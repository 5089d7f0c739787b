/** The page tree as a flat map from pages to leaf entries, and runs of pages as ranges. */
module PageView {
  import opened Paging
  import opened PageTree
  import opened PageFlag
  import opened PageUnmap
  import opened PageSearch
  import opened PageRuns

  function Indices(page: nat): (idx: seq<nat>)
    ensures |idx| == 4 && forall k | 0 <= k < 4 :: idx[k] < PT_LENGTH
  {
    [page / 0x800_0000 % PT_LENGTH, page / 0x4_0000 % PT_LENGTH, page / PT_LENGTH % PT_LENGTH, page % PT_LENGTH]
  }

  function PathOf(page: nat): Path {
    At(page / 0x800_0000 % PT_LENGTH, At(page / 0x4_0000 % PT_LENGTH, At(page / PT_LENGTH % PT_LENGTH, At(page % PT_LENGTH, End))))
  }

  /** What the tree says of a page. */
  function View(tree: seq<Node>, page: nat): Seen {
    Lookup(tree, PathOf(page))
  }

  /** What the processor may do with a page. */
  function Rights(tree: seq<Node>, page: nat): Walked {
    Reach(tree, PathOf(page))
  }

  lemma PathIs(page: nat)
    ensures PathOf(page) == PathFrom(Indices(page), 0) && IsPath(PathOf(page), 4)
  {
    var idx := Indices(page);
    assert PathFrom(idx, 3) == At(idx[3], End);
    assert PathFrom(idx, 2) == At(idx[2], At(idx[3], End));
    assert PathFrom(idx, 1) == At(idx[1], At(idx[2], At(idx[3], End)));
  }

  lemma PathOffset(a: nat, b: nat, c: nat, d: nat)
    ensures Offset(At(a, At(b, At(c, At(d, End)))), 0) == a * 0x800_0000 + b * 0x4_0000 + c * PT_LENGTH + d
  {
    PerEntry();
    hide PagesPerEntry;
    assert Offset(At(d, End), 3) == d;
    assert Offset(At(c, At(d, End)), 2) == c * PT_LENGTH + d;
    assert Offset(At(b, At(c, At(d, End))), 1) == b * 0x4_0000 + (c * PT_LENGTH + d);
  }

  lemma Digits(page: nat)
    requires page < PAGE_LIMIT
    ensures var i := Indices(page); page == i[0] * 0x800_0000 + i[1] * 0x4_0000 + i[2] * PT_LENGTH + i[3]
  {
    assert page / 0x4_0000 == page / PT_LENGTH / PT_LENGTH;
    assert page / 0x800_0000 == page / 0x4_0000 / PT_LENGTH;
  }

  /** The page a path names is the one whose indices it lists. */
  lemma OffsetOf(page: nat)
    requires page < PAGE_LIMIT
    ensures Offset(PathOf(page), 0) == page
  {
    var i := Indices(page);
    Digits(page);
    PathOffset(i[0], i[1], i[2], i[3]);
  }

  lemma PathHasPage(p: Path) returns (page: nat)
    requires IsPath(p, 4)
    ensures page < PAGE_LIMIT && PathOf(page) == p
  {
    var q, r := p.rest, p.rest.rest;
    assert IsPath(q, 3) && IsPath(r, 2) && IsPath(r.rest, 1) && IsPath(r.rest.rest, 0);
    page := p.index * 0x800_0000 + q.index * 0x4_0000 + r.index * PT_LENGTH + r.rest.index;
    DigitsOf(p.index, q.index, r.index, r.rest.index);
  }

  lemma DigitsOf(a: nat, b: nat, c: nat, d: nat)
    requires a < PT_LENGTH && b < PT_LENGTH && c < PT_LENGTH && d < PT_LENGTH
    ensures Indices(a * 0x800_0000 + b * 0x4_0000 + c * PT_LENGTH + d) == [a, b, c, d]
  {
    var x := a * 0x800_0000 + b * 0x4_0000 + c * PT_LENGTH + d;
    var y := a * 0x4_0000 + b * PT_LENGTH + c;
    var z := a * PT_LENGTH + b;
    assert x / PT_LENGTH == y && x % PT_LENGTH == d;
    assert y / PT_LENGTH == z && y % PT_LENGTH == c;
    assert z / PT_LENGTH == a && z % PT_LENGTH == b;
    assert x / 0x4_0000 == z && x / 0x800_0000 == a;
  }

  /** Pages `page` to `page + pages - 1` lie within one leaf table. */
  predicate OneTable(page: nat, pages: nat) {
    0 < pages && page < PAGE_LIMIT && page % PT_LENGTH + pages <= PT_LENGTH
  }

  /** In a run within one leaf table, slots are pages. */
  lemma RunPages(page: nat, pages: nat, v: nat)
    requires OneTable(page, pages) && v < PAGE_LIMIT
    ensures InRun(Indices(page), 0, pages, PathOf(v)) <==> page <= v < page + pages
    ensures InTable(Indices(page), 0, PathOf(v)) <==> v / PT_LENGTH == page / PT_LENGTH
    ensures page <= v < page + pages ==> Nth(Indices(page), PathOf(v)) == v - page
  {
    Digits(page);
    Digits(v);
    InRunIs(Indices(page), pages, Indices(v));
    SameTable(page, v);
  }

  lemma SameTable(page: nat, v: nat)
    requires page < PAGE_LIMIT && v < PAGE_LIMIT
    ensures Indices(v)[..3] == Indices(page)[..3] <==> v / PT_LENGTH == page / PT_LENGTH
  {
    Digits(page);
    Digits(v);
    if Indices(v)[..3] == Indices(page)[..3] {
      assert forall k | 0 <= k < 3 :: Indices(v)[k] == Indices(v)[..3][k] == Indices(page)[..3][k] == Indices(page)[k];
    } else {
      assert v / 0x4_0000 == v / PT_LENGTH / PT_LENGTH && page / 0x4_0000 == page / PT_LENGTH / PT_LENGTH;
      assert v / 0x800_0000 == v / 0x4_0000 / PT_LENGTH && page / 0x800_0000 == page / 0x4_0000 / PT_LENGTH;
    }
  }

  lemma InRunIs(idx: seq<nat>, pages: nat, i: seq<nat>)
    requires |idx| == |i| == 4 && (forall k | 0 <= k < 4 :: i[k] < PT_LENGTH)
    ensures var p := At(i[0], At(i[1], At(i[2], At(i[3], End))));
            && (InRun(idx, 0, pages, p) <==> i[..3] == idx[..3] && idx[3] <= i[3] < idx[3] + pages)
            && (InTable(idx, 0, p) <==> i[..3] == idx[..3])
            && (idx[3] <= i[3] ==> Nth(idx, p) == i[3] - idx[3])
  {
    var p3 := At(i[3], End);
    var p2 := At(i[2], p3);
    var p1 := At(i[1], p2);
    var p0 := At(i[0], p1);
    assert InRun(idx, 3, pages, p3) <==> idx[3] <= i[3] < idx[3] + pages;
    assert InRun(idx, 2, pages, p2) <==> i[2] == idx[2] && InRun(idx, 3, pages, p3);
    assert InRun(idx, 1, pages, p1) <==> i[1] == idx[1] && InRun(idx, 2, pages, p2);
    assert InTable(idx, 2, p2) <==> i[2] == idx[2] && InTable(idx, 3, p3);
    assert InTable(idx, 1, p1) <==> i[1] == idx[1] && InTable(idx, 2, p2);
    assert Last(p3) == i[3];
    assert Last(p2) == Last(p3);
    assert Last(p1) == Last(p2);
    assert Last(p0) == Last(p1);
    assert i[..3] == idx[..3] <==> i[0] == idx[0] && i[1] == idx[1] && i[2] == idx[2] by {
      assert i[..3] == [i[0], i[1], i[2]] && idx[..3] == [idx[0], idx[1], idx[2]];
    }
  }

  // ---- Ranges of pages -----------------------------------------------------------------------

  ghost predicate RangeFree(tree: seq<Node>, page: nat, pages: nat) {
    forall v | page <= v < page + pages :: View(tree, v) == Unmapped
  }

  ghost predicate RangeMapped(tree: seq<Node>, page: nat, pages: nat) {
    forall v | page <= v < page + pages :: View(tree, v).Mapped?
  }

  /** Page k of the range leads to frame k with exactly the given rights; every other translation is as before. */
  ghost predicate MapsRange(tree: seq<Node>, tree': seq<Node>, page: nat, pages: nat, frame: nat, flags: Flags) {
    && (forall v: nat | v < PAGE_LIMIT ::
          View(tree', v) == if page <= v < page + pages then Mapped(SetPte(frame + (v - page), flags)) else View(tree, v))
    && (forall v: nat | v < PAGE_LIMIT && page <= v < page + pages :: Rights(tree', v) == Granted(SetPte(frame + (v - page), flags)))
  }

  /** Every translation outside the range is as before. */
  ghost predicate KeepsOthers(tree: seq<Node>, tree': seq<Node>, page: nat, pages: nat) {
    forall v: nat | v < PAGE_LIMIT && !(page <= v < page + pages) :: View(tree', v) == View(tree, v)
  }

  /** The range keeps its frames and has new rights, other entries are as before; the whole leaf table is limited by these rights. */
  ghost predicate FlagsRange(tree: seq<Node>, tree': seq<Node>, page: nat, pages: nat, flags: Flags) {
    && (forall v: nat | v < PAGE_LIMIT ::
          View(tree', v) == if page <= v < page + pages then Reflagged(View(tree, v), flags) else View(tree, v))
    && (forall v: nat | v < PAGE_LIMIT && v / PT_LENGTH == page / PT_LENGTH :: Rights(tree', v) == Capped(View(tree', v), 0, flags))
  }

  /** The range is untranslatable; every other translation is as before. */
  ghost predicate UnmapsRange(tree: seq<Node>, tree': seq<Node>, page: nat, pages: nat) {
    forall v: nat | v < PAGE_LIMIT :: View(tree', v) == if page <= v < page + pages then Unmapped else View(tree, v)
  }

  lemma SamePageTable(page: nat, pages: nat, v: nat)
    requires OneTable(page, pages) && page <= v < page + pages
    ensures v / PT_LENGTH == page / PT_LENGTH
  {
  }

  /** A table's pages end at a page number. */
  lemma TableEnds(page: nat, pages: nat)
    requires OneTable(page, pages)
    ensures page + pages <= PAGE_LIMIT
  {
    assert page < PAGE_LIMIT - page % PT_LENGTH + page % PT_LENGTH;
    assert page == page / PT_LENGTH * PT_LENGTH + page % PT_LENGTH;
  }

  lemma RunHasPage(page: nat, pages: nat, p: Path) returns (v: nat)
    requires OneTable(page, pages) && InRun(Indices(page), 0, pages, p)
    ensures v < PAGE_LIMIT && page <= v < page + pages && PathOf(v) == p
  {
    RunIsPath(Indices(page), 0, pages, p);
    v := PathHasPage(p);
    RunPages(page, pages, v);
  }

  lemma {:induction false} RunIsPath(idx: seq<nat>, level: nat, pages: nat, p: Path)
    requires |idx| == 4 && level <= PT_LAST_LEVEL && InRun(idx, level, pages, p) && idx[3] + pages <= PT_LENGTH
    requires forall k | 0 <= k < 4 :: idx[k] < PT_LENGTH
    ensures IsPath(p, 4 - level)
    decreases PT_LAST_LEVEL - level
  {
    if level < PT_LAST_LEVEL {
      RunIsPath(idx, level + 1, pages, p.rest);
    }
  }

  /** A search at the first page of a range within one leaf table finds room exactly if the range is free. */
  lemma FreeFits(tree: seq<Node>, page: nat, pages: nat)
    requires Shaped(tree, 0) && OneTable(page, pages) && !View(tree, page).Outside?
    ensures Inside(tree, 0, Indices(page))
    ensures Fits(tree, 0, Indices(page), pages) <==> RangeFree(tree, page, pages)
  {
    hide InRun, Lookup, Indices;
    PathIs(page);
    TableEnds(page, pages);
    FitsOneLeaf(tree, Indices(page), pages);
    if Fits(tree, 0, Indices(page), pages) {
      forall v | page <= v < page + pages
        ensures View(tree, v) == Unmapped
      {
        RunPages(page, pages, v);
      }
    }
    if RangeFree(tree, page, pages) {
      forall p | InRun(Indices(page), 0, pages, p)
        ensures Lookup(tree, p) == Unmapped
      {
        var v := RunHasPage(page, pages, p);
        assert View(tree, v) == Unmapped;
      }
    }
  }

  lemma MappedFlat(tree: seq<Node>, page: nat, pages: nat)
    requires OneTable(page, pages)
    ensures RunMapped(tree, Indices(page), 0, pages) <==> RangeMapped(tree, page, pages)
  {
    hide InRun, Lookup, Indices;
    TableEnds(page, pages);
    forall v | page <= v < page + pages
      ensures InRun(Indices(page), 0, pages, PathOf(v))
    {
      RunPages(page, pages, v);
    }
    if RangeMapped(tree, page, pages) {
      forall p | InRun(Indices(page), 0, pages, p)
        ensures Lookup(tree, p).Mapped?
      {
        var v := RunHasPage(page, pages, p);
        assert View(tree, v).Mapped?;
      }
    }
  }

  lemma FlagsFlat(tree: seq<Node>, tree': seq<Node>, page: nat, pages: nat, flags: Flags)
    requires OneTable(page, pages) && FlagsRun(tree, tree', 0, Indices(page), pages, flags)
    ensures FlagsRange(tree, tree', page, pages, flags)
  {
    hide InRun, InTable, Lookup, Reach, Indices, PathOf, Nth, SetPte, Capped, Reflagged;
    forall v: nat | v < PAGE_LIMIT
      ensures View(tree', v) == if page <= v < page + pages then Reflagged(View(tree, v), flags) else View(tree, v)
      ensures v / PT_LENGTH == page / PT_LENGTH ==> Rights(tree', v) == Capped(View(tree', v), 0, flags)
    {
      PathIs(v);
      RunPages(page, pages, v);
    }
  }

  lemma UnmapsFlat(tree: seq<Node>, page: nat, pages: nat, run: UnmapRun)
    requires Shaped(tree, 0) && OneTable(page, pages) && !View(tree, page).Outside?
    requires run.idx == Indices(page) && run.done == 0
    ensures var (tree', run') := UnmapFrom(tree, 0, run, pages);
            && run'.lost == run.lost && run'.done >= pages && UnmapsRange(tree, tree', page, pages)
            && (HasLeafTable(tree, Indices(page), 0) ==> run'.done == pages)
  {
    hide InRun, Lookup, Indices, UnmapFrom, HasLeafTable;
    PathIs(page);
    UnmapOneLeaf(tree, 0, run, pages);
    forall v: nat | v < PAGE_LIMIT
      ensures View(UnmapFrom(tree, 0, run, pages).0, v) == if page <= v < page + pages then Unmapped else View(tree, v)
    {
      PathIs(v);
      RunPages(page, pages, v);
    }
  }

  /** Unmapping undoes the mapping of a free range. */
  lemma UnmapUndoesMap(tree0: seq<Node>, tree1: seq<Node>, tree2: seq<Node>, page: nat, pages: nat, frame: nat, flags: Flags, v: nat)
    requires RangeFree(tree0, page, pages) && v < PAGE_LIMIT
    requires MapsRange(tree0, tree1, page, pages, frame, flags) && UnmapsRange(tree1, tree2, page, pages)
    ensures View(tree2, v) == View(tree0, v)
  {
    hide View;
  }
}
