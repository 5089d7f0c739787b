/** Changing the rights (`recurse_flag`) and the frames (`recurse_set_backing`) of mapped pages, on trees. */
module PageFlag {
  import opened Paging
  import opened PageTree
  import opened PageMap

  /** What `recurse_flag` threads through its recursion; `missing` is its error -ENOMAP. */
  datatype FlagRun = FlagRun(pages: nat, missing: bool, lost: bool)

  ghost function FlagFrom(kids: seq<Node>, level: nat, idx: seq<nat>, i: nat, run: FlagRun, flags: Flags): (r: (seq<Node>, FlagRun))
    requires level <= PT_LAST_LEVEL && |idx| == 4
    ensures |r.0| == |kids|
    decreases PT_LAST_LEVEL - level, |kids| - i
  {
    if i >= |kids| || run.pages == 0 || run.missing then (kids, run)
    else
      var (n, run') := FlagEntry(kids[i], level, idx, run, flags);
      FlagFrom(kids[i := n], level, idx, i + 1, run', flags)
  }

  ghost function FlagEntry(n: Node, level: nat, idx: seq<nat>, run: FlagRun, flags: Flags): (Node, FlagRun)
    requires level <= PT_LAST_LEVEL && |idx| == 4 && run.pages > 0
    decreases PT_LAST_LEVEL - level, 0
  {
    match n
    case Hole => (n, run.(missing := true))
    case Leaf(e) =>
      if level == PT_LAST_LEVEL then (Leaf(SetPte(e.frame, flags)), run.(pages := run.pages - 1)) else (n, run.(lost := true))
    case Branch(e, kids) =>
      if level == PT_LAST_LEVEL then (n, run.(lost := true))
      else
        var (sub, run') := FlagFrom(kids, level + 1, idx, idx[level + 1], run, flags);
        (Branch(Retag(e, flags), sub), run')
    case Foreign(_) => (n, run.(lost := true))
  }

  /** The leaf slots from index `i` on whose every index is at least the start index, in lexicographic order. */
  function Slots(level: nat, idx: seq<nat>, i: nat): seq<Path>
    requires level <= PT_LAST_LEVEL && |idx| == 4
  {
    Vacant(NoKids(), level, idx, i)
  }

  function SlotsIn(level: nat, idx: seq<nat>): seq<Path>
    requires level <= PT_LAST_LEVEL && |idx| == 4
  {
    VacantIn(Hole, level, idx)
  }

  lemma FlagFromStep(kids: seq<Node>, level: nat, idx: seq<nat>, i: nat, run: FlagRun, flags: Flags)
    requires level <= PT_LAST_LEVEL && |idx| == 4 && i < |kids| && run.pages > 0 && !run.missing
    ensures var (n, run1) := FlagEntry(kids[i], level, idx, run, flags);
            FlagFrom(kids, level, idx, i, run, flags) == FlagFrom(kids[i := n], level, idx, i + 1, run1, flags)
  {
  }

  /** A run ends when the table or the pages are used up, or a slot was missing; a lost one stays lost. */
  lemma FlagFromEnd(kids: seq<Node>, level: nat, idx: seq<nat>, i: nat, run: FlagRun, flags: Flags)
    requires level <= PT_LAST_LEVEL && |idx| == 4
    ensures i >= |kids| || run.pages == 0 || run.missing ==> FlagFrom(kids, level, idx, i, run, flags) == (kids, run)
    ensures run.lost ==> FlagFrom(kids, level, idx, i, run, flags).1.lost
  {
    FlagKeeps(kids, level, idx, i, run, flags);
  }

  /** One turn of the loop. */
  lemma FlagTurn(kids: seq<Node>, level: nat, idx: seq<nat>, i: nat, run: FlagRun, flags: Flags, kids': seq<Node>, goal: FlagRun)
    requires level <= PT_LAST_LEVEL && |idx| == 4 && i < |kids| && run.pages > 0 && !run.missing
    requires (kids', goal) == FlagFrom(kids, level, idx, i, run, flags) && !goal.lost
    ensures var (n, run1) := FlagEntry(kids[i], level, idx, run, flags);
            && !run1.lost && (kids', goal) == FlagFrom(kids[i := n], level, idx, i + 1, run1, flags)
            && (run1.missing ==> (kids', goal) == (kids[i := n], run1))
  {
    var (n, run1) := FlagEntry(kids[i], level, idx, run, flags);
    FlagFromStep(kids, level, idx, i, run, flags);
    hide FlagFrom, FlagEntry;
    FlagFromEnd(kids[i := n], level, idx, i + 1, run1, flags);
  }

  lemma {:induction false} FlagKeeps(kids: seq<Node>, level: nat, idx: seq<nat>, i: nat, run: FlagRun, flags: Flags)
    requires level <= PT_LAST_LEVEL && |idx| == 4
    ensures var (kids', run') := FlagFrom(kids, level, idx, i, run, flags);
            && (forall j | 0 <= j < i && j < |kids| :: kids'[j] == kids[j])
            && (run.lost ==> run'.lost) && (run.missing ==> run'.missing)
    decreases PT_LAST_LEVEL - level, |kids| - i, 1
  {
    if i < |kids| && run.pages > 0 && !run.missing {
      var (n, run1) := FlagEntry(kids[i], level, idx, run, flags);
      FlagEntryKeeps(kids[i], level, idx, run, flags);
      FlagKeeps(kids[i := n], level, idx, i + 1, run1, flags);
    }
  }

  lemma {:induction false} FlagEntryKeeps(n: Node, level: nat, idx: seq<nat>, run: FlagRun, flags: Flags)
    requires level <= PT_LAST_LEVEL && |idx| == 4 && run.pages > 0
    ensures run.lost ==> FlagEntry(n, level, idx, run, flags).1.lost
    decreases PT_LAST_LEVEL - level, 0
  {
    if n.Branch? && level < PT_LAST_LEVEL {
      FlagKeeps(n.kids, level + 1, idx, idx[level + 1], run, flags);
    }
  }

  /** Every listed page was mapped and keeps its frame but has the new rights, effectively; every other leaf entry is as before. */
  ghost predicate Reflags(kids: seq<Node>, kids': seq<Node>, len: nat, slots: seq<Path>, flags: Flags) {
    && (forall p | p in slots ::
          && Lookup(kids, p).Mapped? && Lookup(kids', p) == Mapped(SetPte(Lookup(kids, p).entry.frame, flags))
          && Reach(kids', p) == Granted(SetPte(Lookup(kids, p).entry.frame, flags)))
    && (forall p | IsPath(p, len) && p !in slots :: Lookup(kids', p) == Lookup(kids, p))
  }

  ghost predicate ReflagsIn(n: Node, n': Node, len: nat, slots: seq<Path>, flags: Flags) {
    && (forall p | p in slots ::
          && LookupIn(n, p).Mapped? && LookupIn(n', p) == Mapped(SetPte(LookupIn(n, p).entry.frame, flags))
          && ReachIn(n', p) == Granted(SetPte(LookupIn(n, p).entry.frame, flags)))
    && (forall p | IsPath(p, len) && p !in slots :: LookupIn(n', p) == LookupIn(n, p))
  }

  lemma ReflagsJoin(kids: seq<Node>, i: nat, n: Node, kids': seq<Node>, len: nat,
                    here: seq<Path>, rest: seq<Path>, slots: seq<Path>, flags: Flags)
    requires i < |kids| == |kids'| && kids'[i] == n && slots == Prepend(i, here) + rest
    requires ReflagsIn(kids[i], n, len, here, flags) && Reflags(kids[i := n], kids', len + 1, rest, flags)
    requires forall p | p in rest :: p.At? && p.index > i
    ensures Reflags(kids, kids', len + 1, slots, flags)
  {
    forall p | p in slots
      ensures p in rest || (p.At? && p.index == i && p.rest in here && p !in rest)
    {
      var k :| 0 <= k < |slots| && slots[k] == p;
      if k < |here| { assert p == At(i, here[k]); } else { assert p == rest[k - |here|]; }
    }
    forall p | IsPath(p, len + 1) && p !in slots
      ensures Lookup(kids', p) == Lookup(kids, p)
    {
      forall k | 0 <= k < |rest| ensures rest[k] != p { assert slots[|here| + k] == rest[k]; }
      if p.index == i {
        forall k | 0 <= k < |here| ensures here[k] != p.rest { assert slots[k] == At(i, here[k]); }
      }
    }
  }

  lemma ReflagsBelow(e: Pte, kids: seq<Node>, kids': seq<Node>, len: nat, slots: seq<Path>, flags: Flags)
    requires Reflags(kids, kids', len, slots, flags)
    ensures ReflagsIn(Branch(e, kids), Branch(Retag(e, flags), kids'), len, slots, flags)
  {
  }

  /**
   * A successful `recurse_flag` visits exactly the first slots, in lexicographic order, all of them mapped,
   * changes no frame and leaves each page with exactly the requested rights.
   */
  lemma {:induction false} FlagWrites(kids: seq<Node>, level: nat, idx: seq<nat>, i: nat, run: FlagRun, flags: Flags)
    requires level <= PT_LAST_LEVEL && |idx| == 4 && Shaped(kids, level)
    requires var run' := FlagFrom(kids, level, idx, i, run, flags).1; !run'.lost && !run'.missing
    ensures var (kids', run') := FlagFrom(kids, level, idx, i, run, flags);
            var slots := Slots(level, idx, i);
            var n := Min(run.pages, |slots|);
            run'.pages == run.pages - n && Reflags(kids, kids', 4 - level, slots[..n], flags)
    decreases PT_LAST_LEVEL - level, |kids| - i, 1
  {
    FlagKeeps(kids, level, idx, i, run, flags);
    if i < |kids| && run.pages > 0 {
      hide Reflags, ReflagsIn;
      var (n, run1) := FlagEntry(kids[i], level, idx, run, flags);
      var kids1 := kids[i := n];
      FlagKeeps(kids1, level, idx, i + 1, run1, flags);
      FlagEntryWrites(kids[i], level, idx, run, flags);
      FlagWrites(kids1, level, idx, i + 1, run1, flags);
      VacantFrom(NoKids(), level, idx, i + 1);
      var here, rest, slots := SlotsIn(level, idx), Slots(level, idx, i + 1), Slots(level, idx, i);
      assert slots == Prepend(i, here) + rest;
      var a, b := Min(run.pages, |here|), Min(run1.pages, |rest|);
      assert Prepend(i, here[..a]) + rest[..b] == slots[..a + b];
      ReflagsJoin(kids, i, n, FlagFrom(kids1, level, idx, i + 1, run1, flags).0, 3 - level, here[..a], rest[..b], slots[..a + b], flags);
    }
  }

  lemma {:induction false} FlagEntryWrites(n: Node, level: nat, idx: seq<nat>, run: FlagRun, flags: Flags)
    requires level <= PT_LAST_LEVEL && |idx| == 4 && run.pages > 0 && ShapedIn(n, level)
    requires var run' := FlagEntry(n, level, idx, run, flags).1; !run'.lost && !run'.missing
    ensures var (n', run') := FlagEntry(n, level, idx, run, flags);
            var slots := SlotsIn(level, idx);
            var m := Min(run.pages, |slots|);
            run'.pages == run.pages - m && ReflagsIn(n, n', 3 - level, slots[..m], flags) && ShapedIn(n', level)
    decreases PT_LAST_LEVEL - level, 0
  {
    var slots := SlotsIn(level, idx);
    var m := Min(run.pages, |slots|);
    if level == PT_LAST_LEVEL {
      assert forall p | IsPath(p, 0) :: p == End;
      assert slots[..1] == [End];
    } else {
      var sub := FlagFrom(n.kids, level + 1, idx, idx[level + 1], run, flags).0;
      FlagWrites(n.kids, level + 1, idx, idx[level + 1], run, flags);
      ReflagsBelow(n.entry, n.kids, sub, 3 - level, slots[..m], flags);
      FlagShaped(n.kids, level + 1, idx, idx[level + 1], run, flags);
    }
  }

  lemma {:induction false} FlagShaped(kids: seq<Node>, level: nat, idx: seq<nat>, i: nat, run: FlagRun, flags: Flags)
    requires level <= PT_LAST_LEVEL && |idx| == 4 && Shaped(kids, level)
    ensures Shaped(FlagFrom(kids, level, idx, i, run, flags).0, level)
    decreases PT_LAST_LEVEL - level, |kids| - i
  {
    if i < |kids| && run.pages > 0 && !run.missing {
      var (n, run1) := FlagEntry(kids[i], level, idx, run, flags);
      if kids[i].Branch? {
        FlagShaped(kids[i].kids, level + 1, idx, idx[level + 1], run, flags);
      }
      FlagShaped(kids[i := n], level, idx, i + 1, run1, flags);
    }
  }

  /** Whatever its outcome, re-flagging changes no translation. */
  lemma {:induction false} FlagTranslates(kids: seq<Node>, level: nat, idx: seq<nat>, i: nat, run: FlagRun, flags: Flags, p: Path)
    requires level <= PT_LAST_LEVEL && |idx| == 4
    ensures SameFrame(Lookup(kids, p), Lookup(FlagFrom(kids, level, idx, i, run, flags).0, p))
    decreases PT_LAST_LEVEL - level, |kids| - i, 1
  {
    if i < |kids| && run.pages > 0 && !run.missing {
      var (n, run1) := FlagEntry(kids[i], level, idx, run, flags);
      FlagTranslates(kids[i := n], level, idx, i + 1, run1, flags, p);
      if p.At? && p.index == i {
        FlagEntryTranslates(kids[i], level, idx, run, flags, p.rest);
      }
    }
  }

  lemma {:induction false} FlagEntryTranslates(n: Node, level: nat, idx: seq<nat>, run: FlagRun, flags: Flags, p: Path)
    requires level <= PT_LAST_LEVEL && |idx| == 4 && run.pages > 0
    ensures SameFrame(LookupIn(n, p), LookupIn(FlagEntry(n, level, idx, run, flags).0, p))
    decreases PT_LAST_LEVEL - level, 0
  {
    if n.Branch? && level < PT_LAST_LEVEL {
      FlagTranslates(n.kids, level + 1, idx, idx[level + 1], run, flags, p);
    }
  }

  ghost predicate SameFrame(s: Seen, s': Seen) {
    match (s, s')
    case (Outside, Outside) => true
    case (Unmapped, Unmapped) => true
    case (Mapped(e), Mapped(e')) => e.frame == e'.frame
    case _ => false
  }

  // ---- Backing a page ------------------------------------------------------------------------

  /** `recurse_set_backing`: the leaf entry the indices lead to gets another frame and keeps its rights. */
  function Back(kids: seq<Node>, idx: seq<nat>, level: nat, frame: Frame): (r: seq<Node>)
    requires level <= PT_LAST_LEVEL && |idx| == 4
    ensures |r| == |kids|
    decreases PT_LAST_LEVEL - level
  {
    if idx[level] >= |kids| then kids
    else
      match kids[idx[level]]
      case Leaf(e) => kids[idx[level] := Leaf(e.(frame := frame))]
      case Branch(e, sub) => if level == PT_LAST_LEVEL then kids else kids[idx[level] := Branch(e, Back(sub, idx, level + 1, frame))]
      case _ => kids
  }

  /** The path named by the indices from a level on. */
  function PathFrom(idx: seq<nat>, level: nat): Path
    requires |idx| == 4 && level <= 4
    decreases 4 - level
  {
    if level == 4 then End else At(idx[level], PathFrom(idx, level + 1))
  }

  lemma {:induction false} BackWrites(kids: seq<Node>, idx: seq<nat>, level: nat, frame: Frame, p: Path)
    requires level <= PT_LAST_LEVEL && |idx| == 4 && Shaped(kids, level)
    ensures var kids' := Back(kids, idx, level, frame);
            var here := PathFrom(idx, level);
            && Shaped(kids', level)
            && (p != here ==> Lookup(kids', p) == Lookup(kids, p) && Reach(kids', p) == Reach(kids, p))
            && Lookup(kids', here) == (match Lookup(kids, here) case Mapped(e) => Mapped(e.(frame := frame)) case s => s)
            && Reach(kids', here) == (match Reach(kids, here) case Reached(_, w, u, x) => Reached(frame, w, u, x) case Fault => Fault)
    decreases PT_LAST_LEVEL - level
  {
    if idx[level] < |kids| && kids[idx[level]].Branch? {
      BackWrites(kids[idx[level]].kids, idx, level + 1, frame, if p.At? then p.rest else p);
    }
  }
}
