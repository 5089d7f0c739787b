/**
 * Filling absent leaf slots of a page tree (`recurse_map`), as a function on trees, and the
 * lexicographic list of slots it fills.
 */
module PageMap {
  import opened Paging
  import opened PageTree
  import opened FrameSet

  /** What `recurse_map` threads through its recursion; `lost` records a step into a foreign entry. */
  datatype Run = Run(locked: set<nat>, frame: nat, pages: nat, lost: bool)

  ghost function MapFrom(kids: seq<Node>, level: nat, idx: seq<nat>, i: nat, run: Run, flags: Flags): (r: (seq<Node>, Run))
    requires level <= PT_LAST_LEVEL && |idx| == 4
    ensures |r.0| == |kids|
    decreases PT_LAST_LEVEL - level, |kids| - i
  {
    if i >= |kids| || run.pages == 0 then (kids, run)
    else
      var (n, run') := MapEntry(kids[i], level, idx, run, flags);
      MapFrom(kids[i := n], level, idx, i + 1, run', flags)
  }

  ghost function MapEntry(n: Node, level: nat, idx: seq<nat>, run: Run, flags: Flags): (Node, Run)
    requires level <= PT_LAST_LEVEL && |idx| == 4 && run.pages > 0
    decreases PT_LAST_LEVEL - level, 0
  {
    if level == PT_LAST_LEVEL then
      if n.Hole? then (Leaf(SetPte(run.frame, flags)), run.(frame := run.frame + 1, pages := run.pages - 1))
      else (n, run)
    else
      match n
      case Hole =>
        var f := LeastFree(run.locked);
        var (sub, run') := MapFrom(NoKids(), level + 1, idx, idx[level + 1], run.(locked := run.locked + {f}), flags);
        (Branch(Retag(SetPte(f, WRITE_ONLY), flags), sub), run')
      case Branch(e, kids) =>
        var (sub, run') := MapFrom(kids, level + 1, idx, idx[level + 1], run, flags);
        (Branch(Retag(e, flags), sub), run')
      case _ => (n, run.(lost := true))
  }

  // ---- The slots, in order -------------------------------------------------------------------

  function Min(a: nat, b: nat): nat {
    if a < b then a else b
  }

  /** The absent leaf slots from index `i` on whose every index is at least the start index, in lexicographic order. */
  function Vacant(kids: seq<Node>, level: nat, idx: seq<nat>, i: nat): seq<Path>
    requires level <= PT_LAST_LEVEL && |idx| == 4
    decreases PT_LAST_LEVEL - level, |kids| - i
  {
    if i >= |kids| then [] else Prepend(i, VacantIn(kids[i], level, idx)) + Vacant(kids, level, idx, i + 1)
  }

  function VacantIn(n: Node, level: nat, idx: seq<nat>): seq<Path>
    requires level <= PT_LAST_LEVEL && |idx| == 4
    decreases PT_LAST_LEVEL - level, 0
  {
    if level == PT_LAST_LEVEL then if n.Hole? then [End] else []
    else
      match n
      case Hole => Vacant(NoKids(), level + 1, idx, idx[level + 1])
      case Branch(_, kids) => Vacant(kids, level + 1, idx, idx[level + 1])
      case _ => []
  }

  lemma {:induction false} VacantLocal(kids: seq<Node>, kids': seq<Node>, level: nat, idx: seq<nat>, i: nat)
    requires level <= PT_LAST_LEVEL && |idx| == 4 && |kids| == |kids'|
    requires forall j | i <= j < |kids| :: kids[j] == kids'[j]
    ensures Vacant(kids, level, idx, i) == Vacant(kids', level, idx, i)
    decreases |kids| - i
  {
    if i < |kids| {
      VacantLocal(kids, kids', level, idx, i + 1);
    }
  }

  /** Slots listed from `i` on have first index at least `i`. */
  lemma {:induction false} VacantFrom(kids: seq<Node>, level: nat, idx: seq<nat>, i: nat)
    requires level <= PT_LAST_LEVEL && |idx| == 4
    ensures forall p | p in Vacant(kids, level, idx, i) :: p.At? && i <= p.index < |kids|
    decreases |kids| - i
  {
    if i < |kids| {
      VacantFrom(kids, level, idx, i + 1);
    }
  }

  // ---- What a run of `recurse_map` does ------------------------------------------------------

  function Ptes(frame: nat, n: nat, flags: Flags): (r: seq<Pte>)
    ensures |r| == n && forall k | 0 <= k < n :: r[k] == SetPte(frame + k, flags)
  {
    seq(n, k requires 0 <= k => SetPte(frame + k, flags))
  }

  lemma PtesJoin(frame: nat, a: nat, b: nat, flags: Flags)
    ensures Ptes(frame, a, flags) + Ptes(frame + a, b, flags) == Ptes(frame, a + b, flags)
  {
  }

  /** `run'` has mapped the first of so many vacant slots. */
  ghost predicate Advanced(run: Run, run': Run, vacant: nat) {
    && run'.pages == run.pages - Min(run.pages, vacant)
    && run'.frame == run.frame + Min(run.pages, vacant)
    && run.locked <= run'.locked
  }

  /** Filling the slots below entry `i` and then the later ones, together. */
  lemma MapJoin(kids: seq<Node>, i: nat, n: Node, kids': seq<Node>, len: nat,
                here: seq<Path>, rest: seq<Path>, slots: seq<Path>, run: Run, run1: Run, flags: Flags)
    requires i < |kids| == |kids'| && kids'[i] == n && slots == Prepend(i, here) + rest
    requires forall p | p in rest :: p.At? && p.index > i
    requires Advanced(run, run1, |here|)
    requires WrittenIn(kids[i], n, len, here[..Min(run.pages, |here|)], Ptes(run.frame, Min(run.pages, |here|), flags))
    requires Written(kids[i := n], kids', len + 1, rest[..Min(run1.pages, |rest|)],
                     Ptes(run1.frame, Min(run1.pages, |rest|), flags))
    ensures Written(kids, kids', len + 1, slots[..Min(run.pages, |slots|)], Ptes(run.frame, Min(run.pages, |slots|), flags))
  {
    hide Written, WrittenIn;
    var a, b := Min(run.pages, |here|), Min(run1.pages, |rest|);
    WrittenJoin(kids, i, n, kids', len, here[..a], Ptes(run.frame, a, flags), rest[..b], Ptes(run1.frame, b, flags));
    PtesJoin(run.frame, a, b, flags);
    assert Prepend(i, here[..a]) + rest[..b] == slots[..a + b];
  }

  lemma {:induction false} MapKeeps(kids: seq<Node>, level: nat, idx: seq<nat>, i: nat, run: Run, flags: Flags)
    requires level <= PT_LAST_LEVEL && |idx| == 4
    ensures var (kids', run') := MapFrom(kids, level, idx, i, run, flags);
            && (forall j | 0 <= j < i && j < |kids| :: kids'[j] == kids[j])
            && (run.lost ==> run'.lost) && run.locked <= run'.locked
    decreases PT_LAST_LEVEL - level, |kids| - i, 1
  {
    if i < |kids| && run.pages > 0 {
      var (n, run1) := MapEntry(kids[i], level, idx, run, flags);
      MapEntryKeeps(kids[i], level, idx, run, flags);
      MapKeeps(kids[i := n], level, idx, i + 1, run1, flags);
    }
  }

  lemma {:induction false} MapEntryKeeps(n: Node, level: nat, idx: seq<nat>, run: Run, flags: Flags)
    requires level <= PT_LAST_LEVEL && |idx| == 4 && run.pages > 0
    ensures run.lost ==> MapEntry(n, level, idx, run, flags).1.lost
    ensures run.locked <= MapEntry(n, level, idx, run, flags).1.locked
    ensures level < PT_LAST_LEVEL && n.Hole? ==> LeastFree(run.locked) in MapEntry(n, level, idx, run, flags).1.locked
    decreases PT_LAST_LEVEL - level, 0
  {
    if level < PT_LAST_LEVEL {
      match n
      case Hole =>
        MapKeeps(NoKids(), level + 1, idx, idx[level + 1], run.(locked := run.locked + {LeastFree(run.locked)}), flags);
      case Branch(_, kids) =>
        MapKeeps(kids, level + 1, idx, idx[level + 1], run, flags);
      case _ =>
    }
  }

  lemma MapFromEnd(kids: seq<Node>, level: nat, idx: seq<nat>, i: nat, run: Run, flags: Flags)
    requires level <= PT_LAST_LEVEL && |idx| == 4 && (i >= |kids| || run.pages == 0)
    ensures MapFrom(kids, level, idx, i, run, flags) == (kids, run)
  {
  }

  lemma MapFromStep(kids: seq<Node>, level: nat, idx: seq<nat>, i: nat, run: Run, flags: Flags)
    requires level <= PT_LAST_LEVEL && |idx| == 4 && i < |kids| && run.pages > 0
    ensures var (n, run1) := MapEntry(kids[i], level, idx, run, flags);
            var goal := MapFrom(kids, level, idx, i, run, flags);
            && goal == MapFrom(kids[i := n], level, idx, i + 1, run1, flags)
            && (!goal.1.lost ==> !run1.lost) && run1.locked <= goal.1.locked
  {
    var (n, run1) := MapEntry(kids[i], level, idx, run, flags);
    MapKeeps(kids[i := n], level, idx, i + 1, run1, flags);
  }

  lemma MapEntryEnters(n: Node, level: nat, idx: seq<nat>, run: Run, flags: Flags)
    requires level < PT_LAST_LEVEL && |idx| == 4 && run.pages > 0 && !MapEntry(n, level, idx, run, flags).1.lost
    ensures n.Hole? || n.Branch?
    ensures n.Hole? ==> LeastFree(run.locked) in MapEntry(n, level, idx, run, flags).1.locked
  {
    MapEntryKeeps(n, level, idx, run, flags);
  }

  /** The child a step above the last level enters: a new table or the one that was there, its entry retagged. */
  ghost predicate EntersAs(n: Node, locked: set<nat>, flags: Flags, e: Pte, sub: seq<Node>, locked': set<nat>) {
    match n
    case Hole => e == Retag(SetPte(LeastFree(locked), WRITE_ONLY), flags) && sub == NoKids() && locked' == locked + {LeastFree(locked)}
    case Branch(e0, kids) => e == Retag(e0, flags) && sub == kids && locked' == locked
    case _ => false
  }

  lemma MapEntryVia(n: Node, level: nat, idx: seq<nat>, run: Run, flags: Flags, e: Pte, sub: seq<Node>, run1: Run)
    requires level < PT_LAST_LEVEL && |idx| == 4 && run.pages > 0
    requires EntersAs(n, run.locked, flags, e, sub, run1.locked) && run1 == run.(locked := run1.locked)
    ensures MapEntry(n, level, idx, run, flags).1 == MapFrom(sub, level + 1, idx, idx[level + 1], run1, flags).1
    ensures MapEntry(n, level, idx, run, flags).0 == Branch(e, MapFrom(sub, level + 1, idx, idx[level + 1], run1, flags).0)
  {
  }

  /**
   * `recurse_map` fills the first absent slots, in lexicographic order, with consecutive frames, and
   * gives each page exactly the requested rights.
   */
  lemma {:induction false} MapWrites(kids: seq<Node>, level: nat, idx: seq<nat>, i: nat, run: Run, flags: Flags)
    requires level <= PT_LAST_LEVEL && |idx| == 4
    requires !MapFrom(kids, level, idx, i, run, flags).1.lost
    ensures var (kids', run') := MapFrom(kids, level, idx, i, run, flags);
            var slots := Vacant(kids, level, idx, i);
            var n := Min(run.pages, |slots|);
            Advanced(run, run', |slots|) && Written(kids, kids', 4 - level, slots[..n], Ptes(run.frame, n, flags))
    decreases PT_LAST_LEVEL - level, |kids| - i, 1
  {
    if i < |kids| && run.pages > 0 {
      hide WrittenIn, Written;
      var (n, run1) := MapEntry(kids[i], level, idx, run, flags);
      var kids1 := kids[i := n];
      var (kids', run') := MapFrom(kids1, level, idx, i + 1, run1, flags);
      MapKeeps(kids1, level, idx, i + 1, run1, flags);
      MapEntryWrites(kids[i], level, idx, run, flags);
      MapWrites(kids1, level, idx, i + 1, run1, flags);
      VacantLocal(kids, kids1, level, idx, i + 1);
      VacantFrom(kids1, level, idx, i + 1);
      var here, rest, slots := VacantIn(kids[i], level, idx), Vacant(kids1, level, idx, i + 1), Vacant(kids, level, idx, i);
      assert slots == Prepend(i, here) + rest;
      MapJoin(kids, i, n, kids', 3 - level, here, rest, slots, run, run1, flags);
    }
  }

  lemma {:induction false} MapEntryWrites(n: Node, level: nat, idx: seq<nat>, run: Run, flags: Flags)
    requires level <= PT_LAST_LEVEL && |idx| == 4 && run.pages > 0
    requires !MapEntry(n, level, idx, run, flags).1.lost
    ensures var (n', run') := MapEntry(n, level, idx, run, flags);
            var slots := VacantIn(n, level, idx);
            var m := Min(run.pages, |slots|);
            Advanced(run, run', |slots|) && WrittenIn(n, n', 3 - level, slots[..m], Ptes(run.frame, m, flags))
    decreases PT_LAST_LEVEL - level, 0
  {
    var (n', run') := MapEntry(n, level, idx, run, flags);
    var slots := VacantIn(n, level, idx);
    var m := Min(run.pages, |slots|);
    var ptes := Ptes(run.frame, m, flags);
    if level == PT_LAST_LEVEL {
      assert forall p | IsPath(p, 0) :: p == End;
      assert n.Hole? ==> slots[..1] == [End] && ptes == [SetPte(run.frame, flags)];
    } else {
      match n
      case Hole =>
        var run1 := run.(locked := run.locked + {LeastFree(run.locked)});
        MapWrites(NoKids(), level + 1, idx, idx[level + 1], run1, flags);
        WrittenBelow(n, NoKids(), n'.kids, 3 - level, slots[..m], ptes, n'.entry);
      case Branch(_, kids) =>
        MapWrites(kids, level + 1, idx, idx[level + 1], run, flags);
        WrittenBelow(n, kids, n'.kids, 3 - level, slots[..m], ptes, n'.entry);
      case _ =>
    }
  }
}
