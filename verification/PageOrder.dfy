/** The order in which mapping and re-flagging visit leaf slots, and when it is the order of consecutive pages. */
module PageOrder {
  import opened Paging
  import opened PageTree
  import opened PageMap
  import opened PageFlag
  import opened PageUnmap

  /** Every index of the path is at least the start index of its level. */
  predicate AtLeast(p: Path, idx: seq<nat>, level: nat)
    requires |idx| == 4
    decreases p
  {
    p.At? ==> level < 4 && idx[level] <= p.index && AtLeast(p.rest, idx, level + 1)
  }

  lemma EntryPages(level: nat)
    requires level <= PT_LAST_LEVEL
    ensures PagesPerEntry(level) == if level == PT_LAST_LEVEL then 1 else PT_LENGTH * PagesPerEntry(level + 1)
  {
  }

  lemma Product(a: nat, b: nat, x: nat)
    requires a < b
    ensures a * x + x <= b * x && (a + 1) * x == a * x + x && (b - a) * x == b * x - a * x
  {
    var c: nat := b - a - 1;
    assert b * x == a * x + c * x + x by { assert b == a + c + 1; }
    assert (b - a) * x == c * x + x by { assert b - a == c + 1; }
  }

  lemma {:induction false} OffsetBounds(p: Path, level: nat)
    requires 0 < level <= 4 && IsPath(p, 4 - level)
    ensures Offset(p, level) < PagesPerEntry(level - 1)
    decreases p
  {
    hide PagesPerEntry;
    if p.At? {
      OffsetBounds(p.rest, level + 1);
      EntryPages(level - 1);
      Product(p.index, PT_LENGTH, PagesPerEntry(level));
    } else {
      EntryPages(3);
    }
  }

  // ---- The list of absent slots --------------------------------------------------------------

  /** The list names exactly the unmapped pages none of whose indices is below the start. */
  lemma {:induction false} VacantExact(kids: seq<Node>, level: nat, idx: seq<nat>, i: nat, p: Path)
    requires level <= PT_LAST_LEVEL && |idx| == 4 && Shaped(kids, level)
    ensures p in Vacant(kids, level, idx, i) <==>
              IsPath(p, 4 - level) && i <= p.index && AtLeast(p.rest, idx, level + 1) && Lookup(kids, p) == Unmapped
    decreases PT_LAST_LEVEL - level, |kids| - i, 1
  {
    if i < |kids| {
      VacantExact(kids, level, idx, i + 1, p);
      var here, rest := VacantIn(kids[i], level, idx), Vacant(kids, level, idx, i + 1);
      assert Vacant(kids, level, idx, i) == Prepend(i, here) + rest;
      assert ShapedIn(kids[i], level);
      if p.At? {
        VacantInExact(kids[i], level, idx, p.rest);
        InPrepended(i, here, p);
        assert p.index == i && IsPath(p, 4 - level) ==> Lookup(kids, p) == LookupIn(kids[i], p.rest);
      } else {
        assert p !in Prepend(i, here);
      }
    }
  }

  lemma InPrepended(i: nat, paths: seq<Path>, p: Path)
    requires p.At?
    ensures p in Prepend(i, paths) <==> p.index == i && p.rest in paths
  {
    if p.index == i && p.rest in paths {
      var k :| 0 <= k < |paths| && paths[k] == p.rest;
      assert Prepend(i, paths)[k] == p;
    }
  }

  lemma {:induction false} VacantInExact(n: Node, level: nat, idx: seq<nat>, p: Path)
    requires level <= PT_LAST_LEVEL && |idx| == 4 && ShapedIn(n, level)
    ensures p in VacantIn(n, level, idx) <==> IsPath(p, 3 - level) && AtLeast(p, idx, level + 1) && LookupIn(n, p) == Unmapped
    decreases PT_LAST_LEVEL - level, 0
  {
    if level < PT_LAST_LEVEL {
      match n
      case Hole =>
        VacantExact(NoKids(), level + 1, idx, idx[level + 1], p);
      case Branch(_, kids) =>
        VacantExact(kids, level + 1, idx, idx[level + 1], p);
      case _ =>
    }
  }

  /** It is in ascending order of pages. */
  lemma {:induction false} VacantSorted(kids: seq<Node>, level: nat, idx: seq<nat>, i: nat, a: nat, b: nat)
    requires level <= PT_LAST_LEVEL && |idx| == 4 && Shaped(kids, level) && a < b < |Vacant(kids, level, idx, i)|
    ensures Offset(Vacant(kids, level, idx, i)[a], level) < Offset(Vacant(kids, level, idx, i)[b], level)
    decreases PT_LAST_LEVEL - level, |kids| - i, 1
  {
    hide PagesPerEntry;
    var here, rest := VacantIn(kids[i], level, idx), Vacant(kids, level, idx, i + 1);
    var all := Vacant(kids, level, idx, i);
    assert all == Prepend(i, here) + rest && ShapedIn(kids[i], level);
    if a >= |here| {
      VacantSorted(kids, level, idx, i + 1, a - |here|, b - |here|);
    } else if b < |here| {
      VacantInSorted(kids[i], level, idx, a, b);
    } else {
      assert all[a] == At(i, here[a]) && all[b] == rest[b - |here|];
      VacantExact(kids, level, idx, i + 1, rest[b - |here|]);
      VacantInExact(kids[i], level, idx, here[a]);
      OffsetBounds(here[a], level + 1);
      Product(i, all[b].index, PagesPerEntry(level));
    }
  }

  lemma {:induction false} VacantInSorted(n: Node, level: nat, idx: seq<nat>, a: nat, b: nat)
    requires level <= PT_LAST_LEVEL && |idx| == 4 && ShapedIn(n, level) && a < b < |VacantIn(n, level, idx)|
    ensures Offset(VacantIn(n, level, idx)[a], level + 1) < Offset(VacantIn(n, level, idx)[b], level + 1)
    decreases PT_LAST_LEVEL - level, 0
  {
    match n
    case Hole =>
      VacantSorted(NoKids(), level + 1, idx, idx[level + 1], a, b);
    case Branch(_, kids) =>
      VacantSorted(kids, level + 1, idx, idx[level + 1], a, b);
    case _ =>
  }

  // ---- Consecutive pages ---------------------------------------------------------------------

  /** The first `n` slots are those of `n` consecutive pages. */
  ghost predicate Consecutive(slots: seq<Path>, level: nat, n: nat)
    requires 0 < n <= |slots|
  {
    forall k | 0 <= k < n :: Offset(slots[k], level) == Offset(slots[0], level) + k
  }

  /** How many slots have every index from `level` on at or above its start: the product of what is left of each table. */
  function SlotCount(idx: seq<nat>, level: nat): nat
    requires InBounds(idx) && level <= 4
    decreases 4 - level
  {
    if level == 4 then 1 else (PT_LENGTH - idx[level]) * SlotCount(idx, level + 1)
  }

  /** A run of `n` pages leaves a table below `level` only where it began at the table's first entry. */
  predicate Straight(idx: seq<nat>, level: nat, n: nat)
    requires InBounds(idx) && level <= PT_LAST_LEVEL
  {
    forall j | level < j < 4 :: n > SlotCount(idx, j) ==> idx[j] == 0
  }

  /** All indices below `level` are zero. */
  predicate Zeros(idx: seq<nat>, level: nat)
    requires |idx| == 4
  {
    forall j | level < j < 4 :: idx[j] == 0
  }

  predicate InBounds(idx: seq<nat>) {
    |idx| == 4 && forall j | 0 <= j < 4 :: idx[j] < PT_LENGTH
  }

  lemma SlotsStep(level: nat, idx: seq<nat>, i: nat)
    requires level <= PT_LAST_LEVEL && |idx| == 4 && i < PT_LENGTH
    ensures Slots(level, idx, i) == Prepend(i, SlotsIn(level, idx)) + Slots(level, idx, i + 1)
    ensures SlotsIn(level, idx) == if level == PT_LAST_LEVEL then [End] else Slots(level + 1, idx, idx[level + 1])
  {
  }

  /** The number of slots visited from index `i` on is a product of what the start indices leave of their tables. */
  lemma {:induction false} SlotsCounted(level: nat, idx: seq<nat>, i: nat)
    requires level <= PT_LAST_LEVEL && InBounds(idx) && i <= PT_LENGTH
    ensures |Slots(level, idx, i)| == (PT_LENGTH - i) * SlotCount(idx, level + 1)
    decreases PT_LAST_LEVEL - level, PT_LENGTH - i
  {
    hide PagesPerEntry, Vacant, VacantIn, Slots, SlotsIn;
    if i < PT_LENGTH {
      SlotsStep(level, idx, i);
      SlotsCounted(level, idx, i + 1);
      if level < PT_LAST_LEVEL {
        SlotsCounted(level + 1, idx, idx[level + 1]);
      }
      hide SlotCount;
      var x := SlotCount(idx, level + 1);
      assert |SlotsIn(level, idx)| == x;
      assert (PT_LENGTH - i) * x == (PT_LENGTH - (i + 1)) * x + x;
    } else {
      NoSlots(level, idx);
    }
  }

  lemma NoSlots(level: nat, idx: seq<nat>)
    requires level <= PT_LAST_LEVEL && |idx| == 4
    ensures Slots(level, idx, PT_LENGTH) == []
  {
  }

  lemma {:induction false} ZerosConsecutive(level: nat, idx: seq<nat>, i: nat)
    requires level <= PT_LAST_LEVEL && InBounds(idx) && Zeros(idx, level) && i <= PT_LENGTH
    ensures |Slots(level, idx, i)| == (PT_LENGTH - i) * PagesPerEntry(level)
    ensures forall k | 0 <= k < |Slots(level, idx, i)| :: Offset(Slots(level, idx, i)[k], level) == i * PagesPerEntry(level) + k
    decreases PT_LAST_LEVEL - level, PT_LENGTH - i
  {
    hide PagesPerEntry, Vacant, VacantIn, Slots, SlotsIn;
    var x := PagesPerEntry(level);
    if i < PT_LENGTH {
      var s, sub := Slots(level, idx, i), SlotsIn(level, idx);
      SlotsStep(level, idx, i);
      ZerosConsecutive(level, idx, i + 1);
      EntryPages(level);
      Product(i, PT_LENGTH, x);
      Product(i, i + 1, x);
      if level < PT_LAST_LEVEL {
        ZerosConsecutive(level + 1, idx, 0);
      }
      assert |sub| == x && forall k | 0 <= k < x :: Offset(sub[k], level + 1) == k;
      forall k | 0 <= k < |s| ensures Offset(s[k], level) == i * x + k {
        assert k < x ==> s[k] == At(i, sub[k]);
      }
    } else {
      NoSlots(level, idx);
    }
  }

  /** The first slot is the one at the indices, the last one is the last of the table. */
  lemma {:induction false} Ends(level: nat, idx: seq<nat>, i: nat)
    requires level <= PT_LAST_LEVEL && InBounds(idx) && i < PT_LENGTH
    ensures var s := Slots(level, idx, i);
            && 0 < |SlotsIn(level, idx)| <= |s|
            && Offset(s[0], level) == i * PagesPerEntry(level) + Offset(PathFrom(idx, level + 1), level + 1)
            && Offset(s[|s| - 1], level) == PT_LENGTH * PagesPerEntry(level) - 1
    decreases PT_LAST_LEVEL - level, PT_LENGTH - i
  {
    hide PagesPerEntry, Vacant, VacantIn, Slots, SlotsIn;
    var s, sub := Slots(level, idx, i), SlotsIn(level, idx);
    SlotsStep(level, idx, i);
    EntryPages(level);
    if level < PT_LAST_LEVEL {
      Ends(level + 1, idx, idx[level + 1]);
    }
    assert |sub| > 0 && s[0] == At(i, sub[0]);
    if i + 1 < PT_LENGTH {
      Ends(level, idx, i + 1);
    } else {
      NoSlots(level, idx);
      Product(i, PT_LENGTH, PagesPerEntry(level));
      assert s[|s| - 1] == At(i, sub[|sub| - 1]);
    }
  }

  lemma {:induction false} ZeroOffset(idx: seq<nat>, level: nat)
    requires level < 4 && |idx| == 4
    ensures Offset(PathFrom(idx, level + 1), level + 1) == 0 <==> Zeros(idx, level)
    decreases 4 - level
  {
    hide PagesPerEntry;
    if level < PT_LAST_LEVEL {
      hide Offset, PathFrom;
      ZeroOffset(idx, level + 1);
      OffsetZero(idx, level + 1);
      assert Zeros(idx, level) <==> idx[level + 1] == 0 && Zeros(idx, level + 1);
    } else {
      assert PathFrom(idx, 4) == End;
    }
  }

  lemma ZeroSum(i: nat, x: nat, rest: nat)
    requires x > 0
    ensures i * x + rest == 0 <==> i == 0 && rest == 0
  {
    if i > 0 {
      Product(0, i, x);
    } else {
      assert i * x == 0;
    }
  }

  lemma OffsetZero(idx: seq<nat>, level: nat)
    requires level < 4 && |idx| == 4
    ensures Offset(PathFrom(idx, level), level) == 0 <==> idx[level] == 0 && Offset(PathFrom(idx, level + 1), level + 1) == 0
  {
    hide PagesPerEntry;
    assert PathFrom(idx, level) == At(idx[level], PathFrom(idx, level + 1));
    ZeroSum(idx[level], PagesPerEntry(level), Offset(PathFrom(idx, level + 1), level + 1));
  }

  /** A straight run that is longer than the table below began at its very first slot. */
  lemma {:induction false} LongStraight(idx: seq<nat>, level: nat, n: nat)
    requires level <= PT_LAST_LEVEL && InBounds(idx) && n > |SlotsIn(level, idx)|
    ensures Straight(idx, level, n) <==> Zeros(idx, level)
    decreases PT_LAST_LEVEL - level
  {
    hide PagesPerEntry, Vacant, VacantIn, Slots, SlotsIn, Straight, Zeros, SlotCount;
    if level < PT_LAST_LEVEL {
      SlotsStep(level, idx, 0);
      Ends(level + 1, idx, idx[level + 1]);
      SlotsInCounted(level, idx);
      LongStraight(idx, level + 1, n);
    }
    StraightStep(idx, level, n);
  }

  lemma SlotsInCounted(level: nat, idx: seq<nat>)
    requires level <= PT_LAST_LEVEL && InBounds(idx)
    ensures |SlotsIn(level, idx)| == SlotCount(idx, level + 1)
  {
    hide PagesPerEntry, Vacant, VacantIn, Slots, SlotsIn;
    SlotsStep(level, idx, 0);
    if level < PT_LAST_LEVEL {
      SlotsCounted(level + 1, idx, idx[level + 1]);
    }
  }

  lemma StraightStep(idx: seq<nat>, level: nat, n: nat)
    requires level <= PT_LAST_LEVEL && InBounds(idx)
    ensures Straight(idx, level, n) <==>
              level == PT_LAST_LEVEL || ((n > SlotCount(idx, level + 1) ==> idx[level + 1] == 0) && Straight(idx, level + 1, n))
    ensures Zeros(idx, level) <==> level == PT_LAST_LEVEL || (idx[level + 1] == 0 && Zeros(idx, level + 1))
  {
    hide SlotCount;
  }

  /**
   * The first `n` slots visited are those of consecutive pages exactly if the run leaves no table that it
   * entered in the middle.
   */
  lemma {:induction false} StraightConsecutive(level: nat, idx: seq<nat>, i: nat, n: nat)
    requires level <= PT_LAST_LEVEL && InBounds(idx) && i < PT_LENGTH && 0 < n <= (PT_LENGTH - i) * SlotCount(idx, level + 1)
    ensures |Slots(level, idx, i)| == (PT_LENGTH - i) * SlotCount(idx, level + 1)
    ensures Consecutive(Slots(level, idx, i), level, n) <==> Straight(idx, level, n)
    decreases PT_LAST_LEVEL - level
  {
    hide PagesPerEntry, Vacant, VacantIn, Slots, SlotsIn;
    var s, sub := Slots(level, idx, i), SlotsIn(level, idx);
    SlotsStep(level, idx, i);
    SlotsCounted(level, idx, i);
    SlotsInCounted(level, idx);
    Ends(level, idx, i);
    hide SlotCount, Straight;
    if n > |sub| {
      LongStraight(idx, level, n);
      if Zeros(idx, level) {
        ZerosConsecutive(level, idx, i);
      } else {
        Jumps(level, idx, i);
        assert !Consecutive(s, level, n) by {
          assert Offset(s[|sub|], level) != Offset(s[|sub| - 1], level) + 1;
        }
      }
    } else if level == PT_LAST_LEVEL {
      StraightStep(idx, level, n);
    } else {
      SlotsCounted(level + 1, idx, idx[level + 1]);
      StraightConsecutive(level + 1, idx, idx[level + 1], n);
      StraightStep(idx, level, n);
      assert forall k | 0 <= k < n :: Offset(s[k], level) == i * PagesPerEntry(level) + Offset(sub[k], level + 1);
    }
  }

  /** From the last slot below one entry to the first below the next. */
  lemma Jumps(level: nat, idx: seq<nat>, i: nat)
    requires level <= PT_LAST_LEVEL && InBounds(idx) && i < PT_LENGTH && |Slots(level, idx, i)| > |SlotsIn(level, idx)|
    ensures var s, m := Slots(level, idx, i), |SlotsIn(level, idx)|;
            m > 0 && (Offset(s[m], level) == Offset(s[m - 1], level) + 1 <==> Zeros(idx, level))
  {
    hide PagesPerEntry, Vacant, VacantIn, Slots, SlotsIn;
    SlotsStep(level, idx, i);
    if i + 1 == PT_LENGTH { NoSlots(level, idx); }
    Ends(level, idx, i);
    Ends(level, idx, i + 1);
    ZeroOffset(idx, level);
    EntryPages(level);
    Product(i, i + 1, PagesPerEntry(level));
    if level < PT_LAST_LEVEL {
      Ends(level + 1, idx, idx[level + 1]);
    }
  }

  /** From the last entry of a leaf table the visit does not go on to the next page. */
  lemma CrossingSkips()
    ensures var idx := [0, 0, 0, PT_LENGTH - 1];
            |Slots(0, idx, 0)| >= 2 && !Consecutive(Slots(0, idx, 0), 0, 2)
  {
    var idx := [0, 0, 0, PT_LENGTH - 1];
    assert SlotCount(idx, 4) == 1;
    assert SlotCount(idx, 3) == 1;
    assert SlotCount(idx, 2) == PT_LENGTH;
    assert SlotCount(idx, 1) == PT_LENGTH * PT_LENGTH;
    StraightConsecutive(0, idx, 0, 2);
  }

  // ---- When re-flagging misses a page --------------------------------------------------------

  /** All the slots that re-flagging `pages` pages visits are mapped. */
  ghost predicate VisitsMapped(kids: seq<Node>, level: nat, idx: seq<nat>, i: nat, pages: nat)
    requires level <= PT_LAST_LEVEL && |idx| == 4
  {
    forall k | 0 <= k < Min(pages, |Slots(level, idx, i)|) :: Lookup(kids, Slots(level, idx, i)[k]).Mapped?
  }

  /** A re-flagging that stays inside the tree reports a missing page exactly if one of the slots it was to visit is unmapped. */
  lemma FlagMissingIff(kids: seq<Node>, level: nat, idx: seq<nat>, i: nat, run: FlagRun, flags: Flags)
    requires level <= PT_LAST_LEVEL && InBounds(idx) && Shaped(kids, level) && i <= PT_LENGTH && !run.missing
    requires !FlagFrom(kids, level, idx, i, run, flags).1.lost
    ensures FlagFrom(kids, level, idx, i, run, flags).1.missing <==> !VisitsMapped(kids, level, idx, i, run.pages)
  {
    hide Slots, FlagFrom;
    var s := Slots(level, idx, i);
    if FlagFrom(kids, level, idx, i, run, flags).1.missing {
      var k := FlagMisses(kids, level, idx, i, run, flags);
      assert !Lookup(kids, s[k]).Mapped?;
    } else {
      FlagWrites(kids, level, idx, i, run, flags);
      var n := Min(run.pages, |s|);
      forall k | 0 <= k < n ensures Lookup(kids, s[k]).Mapped? { assert s[..n][k] in s[..n]; }
    }
  }

  lemma {:induction false} FlagMisses(kids: seq<Node>, level: nat, idx: seq<nat>, i: nat, run: FlagRun, flags: Flags) returns (k: nat)
    requires level <= PT_LAST_LEVEL && InBounds(idx) && Shaped(kids, level) && i <= PT_LENGTH && !run.missing
    requires !FlagFrom(kids, level, idx, i, run, flags).1.lost && FlagFrom(kids, level, idx, i, run, flags).1.missing
    ensures k < Min(run.pages, |Slots(level, idx, i)|) && Lookup(kids, Slots(level, idx, i)[k]) == Unmapped
    decreases PT_LAST_LEVEL - level, PT_LENGTH - i, 1
  {
    hide Slots, SlotsIn, FlagFrom, FlagEntry;
    FlagFromEnd(kids, level, idx, i, run, flags);
    FlagFromStep(kids, level, idx, i, run, flags);
    SlotsStep(level, idx, i);
    assert ShapedIn(kids[i], level);
    var (n, run1) := FlagEntry(kids[i], level, idx, run, flags);
    FlagFromEnd(kids[i := n], level, idx, i + 1, run1, flags);
    var sub, more := SlotsIn(level, idx), Slots(level, idx, i + 1);
    if run1.missing {
      k := FlagMissesIn(kids[i], level, idx, run, flags);
      assert Slots(level, idx, i)[k] == At(i, sub[k]);
    } else {
      FlagEntryWrites(kids[i], level, idx, run, flags);
      var k1 := FlagMisses(kids[i := n], level, idx, i + 1, run1, flags);
      k := |sub| + k1;
      assert Slots(level, idx, i)[k] == more[k1];
      LaterSlot(level, idx, i, k1);
    }
  }

  lemma LaterSlot(level: nat, idx: seq<nat>, i: nat, k: nat)
    requires level <= PT_LAST_LEVEL && |idx| == 4 && k < |Slots(level, idx, i + 1)|
    ensures Slots(level, idx, i + 1)[k].At? && Slots(level, idx, i + 1)[k].index > i
  {
    VacantFrom(NoKids(), level, idx, i + 1);
    assert Slots(level, idx, i + 1)[k] in Slots(level, idx, i + 1);
  }

  lemma {:induction false} FlagMissesIn(n: Node, level: nat, idx: seq<nat>, run: FlagRun, flags: Flags) returns (k: nat)
    requires level <= PT_LAST_LEVEL && InBounds(idx) && ShapedIn(n, level) && !run.missing && run.pages > 0
    requires !FlagEntry(n, level, idx, run, flags).1.lost && FlagEntry(n, level, idx, run, flags).1.missing
    ensures k < Min(run.pages, |SlotsIn(level, idx)|) && LookupIn(n, SlotsIn(level, idx)[k]) == Unmapped
    decreases PT_LAST_LEVEL - level, 0
  {
    hide Slots, SlotsIn, FlagFrom;
    SlotsStep(level, idx, 0);
    if n.Branch? {
      k := FlagMisses(n.kids, level + 1, idx, idx[level + 1], run, flags);
    } else {
      k := 0;
      SomeSlot(level, idx);
    }
  }

  lemma SomeSlot(level: nat, idx: seq<nat>)
    requires level <= PT_LAST_LEVEL && InBounds(idx)
    ensures |SlotsIn(level, idx)| > 0
  {
    Ends(level, idx, 0);
  }
}
