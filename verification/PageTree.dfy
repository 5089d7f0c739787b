/**
 * The abstract page tree and what it means for physical memory to hold it.
 *
 * A `Foreign` entry is present but lies outside the tree: the alias of the identity map and the
 * entries on the path to the temporary window. No frame below it is owned by the tree.
 */
module PageTree {
  import opened Paging

  datatype Node =
    | Hole
    | Foreign(entry: Pte)
    | Leaf(entry: Pte)
    | Branch(entry: Pte, kids: seq<Node>)

  function NoKids(): seq<Node> {
    seq(PT_LENGTH, _ => Hole)
  }

  /** Frames of the tables strictly below a node or a table. */
  ghost function TablesOf(n: Node): set<nat> {
    match n
    case Branch(e, kids) => {e.frame} + Tables(kids)
    case _ => {}
  }

  ghost function Tables(kids: seq<Node>): set<nat> {
    set i, f | 0 <= i < |kids| && f in TablesOf(kids[i]) :: f
  }

  /**
   * Memory holds `kids` in frame `table` at the given level, as a tree: no table frame occurs twice.
   * Leaf tables keep off the `spine`, the tables leading to the temporary window.
   */
  ghost predicate Tree(m: Memory, spine: set<nat>, table: nat, kids: seq<Node>, level: nat)
    requires level <= PT_LAST_LEVEL
    decreases PT_LAST_LEVEL - level, 1
  {
    && |kids| == PT_LENGTH
    && (level == PT_LAST_LEVEL ==> table !in spine)
    && table !in Tables(kids)
    && (forall i | 0 <= i < PT_LENGTH :: Holds(m, spine, Fetch(m, table)[i], kids[i], level))
    && (forall i, j | 0 <= i < j < PT_LENGTH :: TablesOf(kids[i]) !! TablesOf(kids[j]))
  }

  ghost predicate Holds(m: Memory, spine: set<nat>, e: Pte, n: Node, level: nat)
    requires level <= PT_LAST_LEVEL
    decreases PT_LAST_LEVEL - level, 0
  {
    match n
    case Hole => !e.present
    case Foreign(p) => level < PT_LAST_LEVEL && e == p && p.present
    case Leaf(p) => level == PT_LAST_LEVEL && e == p && p.present
    case Branch(p, kids) =>
      level < PT_LAST_LEVEL && e == p && p.present && Tree(m, spine, p.frame, kids, level + 1)
  }

  /** A tree depends on its own tables only. */
  lemma {:induction false} TreeFrame(m: Memory, m': Memory, spine: set<nat>, table: nat, kids: seq<Node>, level: nat)
    requires level <= PT_LAST_LEVEL && Tree(m, spine, table, kids, level)
    requires Fetch(m', table) == Fetch(m, table)
    requires forall f | f in Tables(kids) :: Fetch(m', f) == Fetch(m, f)
    ensures Tree(m', spine, table, kids, level)
    decreases PT_LAST_LEVEL - level
  {
    forall i | 0 <= i < PT_LENGTH
      ensures Holds(m', spine, Fetch(m', table)[i], kids[i], level)
    {
      assert Holds(m, spine, Fetch(m, table)[i], kids[i], level);
      if kids[i].Branch? {
        assert forall f | f in TablesOf(kids[i]) :: f in Tables(kids);
        TreeFrame(m, m', spine, kids[i].entry.frame, kids[i].kids, level + 1);
      }
    }
  }

  /** Every table of a tree has PT_LENGTH entries, leaves are on the last level and tables above it. */
  ghost predicate Shaped(kids: seq<Node>, level: nat)
    requires level <= PT_LAST_LEVEL
    decreases PT_LAST_LEVEL - level, 1
  {
    |kids| == PT_LENGTH && forall i | 0 <= i < PT_LENGTH :: ShapedIn(kids[i], level)
  }

  ghost predicate ShapedIn(n: Node, level: nat)
    requires level <= PT_LAST_LEVEL
    decreases PT_LAST_LEVEL - level, 0
  {
    && (n.Leaf? ==> level == PT_LAST_LEVEL) && (n.Foreign? ==> level < PT_LAST_LEVEL)
    && (n.Branch? ==> level < PT_LAST_LEVEL && Shaped(n.kids, level + 1))
  }

  lemma {:induction false} TreeShaped(m: Memory, spine: set<nat>, table: nat, kids: seq<Node>, level: nat)
    requires level <= PT_LAST_LEVEL && Tree(m, spine, table, kids, level)
    ensures Shaped(kids, level)
    decreases PT_LAST_LEVEL - level
  {
    forall i | 0 <= i < PT_LENGTH
      ensures ShapedIn(kids[i], level)
    {
      assert Holds(m, spine, Fetch(m, table)[i], kids[i], level);
      if kids[i].Branch? {
        TreeShaped(m, spine, kids[i].entry.frame, kids[i].kids, level + 1);
      }
    }
  }

  /** Replacing one subtree by another one that is disjoint from the rest yields a tree again. */
  lemma {:induction false} GraftBranch(m: Memory, m': Memory, spine: set<nat>, table: nat, kids: seq<Node>, level: nat,
                                       i: nat, e: Pte, sub: seq<Node>)
    requires level < PT_LAST_LEVEL && i < PT_LENGTH && Tree(m, spine, table, kids, level)
    requires e.present && Fetch(m', table) == Fetch(m, table)[i := e]
    requires Tree(m', spine, e.frame, sub, level + 1)
    requires table != e.frame && table !in Tables(sub)
    requires forall j | 0 <= j < PT_LENGTH && j != i :: TablesOf(kids[j]) !! {e.frame} + Tables(sub)
    requires forall j, f | 0 <= j < PT_LENGTH && j != i && f in TablesOf(kids[j]) :: Fetch(m', f) == Fetch(m, f)
    ensures Tree(m', spine, table, kids[i := Branch(e, sub)], level)
  {
    var kids' := kids[i := Branch(e, sub)];
    assert TablesOf(kids'[i]) == {e.frame} + Tables(sub);
    forall j | 0 <= j < PT_LENGTH
      ensures Holds(m', spine, Fetch(m', table)[j], kids'[j], level)
      ensures table !in TablesOf(kids'[j])
    {
      assert Holds(m, spine, Fetch(m, table)[j], kids[j], level);
      if j != i {
        assert forall f | f in TablesOf(kids[j]) :: f in Tables(kids);
        if kids[j].Branch? {
          TreeFrame(m, m', spine, kids[j].entry.frame, kids[j].kids, level + 1);
        }
      }
    }
  }

  /** Nothing but the tables named may differ. */
  ghost predicate SameBut(m: Memory, m': Memory, changed: set<nat>) {
    forall f | f !in changed :: Fetch(m', f) == Fetch(m, f)
  }

  /** Working below entry `i`, with tables that were fresh, keeps the tree. */
  lemma {:induction false} GraftGrown(m: Memory, m': Memory, spine: set<nat>, table: nat, kids: seq<Node>, level: nat,
                                      i: nat, e: Pte, sub: seq<Node>, extra: set<nat>)
    requires level < PT_LAST_LEVEL && i < PT_LENGTH && Tree(m, spine, table, kids, level)
    requires e.present && Fetch(m', table) == Fetch(m, table)[i := e]
    requires Tree(m', spine, e.frame, sub, level + 1)
    requires TablesOf(Branch(e, sub)) == TablesOf(kids[i]) + extra
    requires extra !! Tables(kids) && table !in extra
    requires SameBut(m, m', {table} + TablesOf(kids[i]) + extra)
    ensures Tree(m', spine, table, kids[i := Branch(e, sub)], level)
    ensures Tables(kids[i := Branch(e, sub)]) == Tables(kids) + extra
  {
    forall j | 0 <= j < PT_LENGTH
      ensures TablesOf(kids[j]) <= Tables(kids)
      ensures j != i ==> TablesOf(kids[j]) !! TablesOf(kids[i])
    {
      assert forall f | f in TablesOf(kids[j]) :: f in Tables(kids);
    }
    assert forall f | f in TablesOf(Branch(e, sub)) :: f != table;
    GraftBranch(m, m', spine, table, kids, level, i, e, sub);
    TablesUpdate(kids, i, Branch(e, sub));
  }

  /** Entry `i` of `table` now leads to a subtree made of the old one below it and of frames locked since. */
  ghost predicate Extended(m: Memory, locked: set<nat>, m1: Memory, locked1: set<nat>, table: nat, i: nat,
                           n: Node, e: Pte, sub: seq<Node>)
    requires i < PT_LENGTH
  {
    && e.present && Fetch(m1, table) == Fetch(m, table)[i := e] && table != e.frame && table !in Tables(sub)
    && locked <= locked1 && SameBut(m, m1, {table} + (locked1 - locked))
    && TablesOf(Branch(e, sub)) == TablesOf(n) + (locked1 - locked)
  }

  /** From `kids` in memory `m` to `kids'` in memory `m'`, adding tables locked meanwhile and touching no others. */
  ghost predicate GrownTo(m: Memory, locked: set<nat>, m': Memory, locked': set<nat>, table: nat, kids: seq<Node>, kids': seq<Node>) {
    && locked <= locked' && Tables(kids') == Tables(kids) + (locked' - locked)
    && SameBut(m, m', {table} + Tables(kids'))
  }

  lemma GrownTrans(m: Memory, locked: set<nat>, m1: Memory, locked1: set<nat>, m2: Memory, locked2: set<nat>, table: nat,
                   kids: seq<Node>, kids1: seq<Node>, kids2: seq<Node>)
    requires GrownTo(m, locked, m1, locked1, table, kids, kids1) && GrownTo(m1, locked1, m2, locked2, table, kids1, kids2)
    ensures GrownTo(m, locked, m2, locked2, table, kids, kids2)
  {
    hide Tables;
  }

  lemma GrownSelf(m: Memory, locked: set<nat>, table: nat, kids: seq<Node>)
    ensures GrownTo(m, locked, m, locked, table, kids, kids)
  {
  }

  lemma ExtendedGrows(m: Memory, locked: set<nat>, m1: Memory, locked1: set<nat>, table: nat, i: nat,
                      n: Node, e: Pte, sub: seq<Node>)
    requires i < PT_LENGTH && Extended(m, locked, m1, locked1, table, i, n, e, sub)
    ensures locked <= locked1
  {
  }

  /** Coming back from a child that has in turn grown by frames locked since. */
  lemma {:induction false} GraftExtended(m0: Memory, locked0: set<nat>, m1: Memory, locked1: set<nat>, m2: Memory, locked2: set<nat>,
                                         spine: set<nat>, table: nat, kids: seq<Node>, level: nat, i: nat, e: Pte,
                                         sub1: seq<Node>, sub2: seq<Node>)
    requires level < PT_LAST_LEVEL && i < PT_LENGTH && Tree(m0, spine, table, kids, level)
    requires Tables(kids) + {table} <= locked0 && locked1 <= locked2
    requires Extended(m0, locked0, m1, locked1, table, i, kids[i], e, sub1)
    requires Tree(m2, spine, e.frame, sub2, level + 1) && Tables(sub2) == Tables(sub1) + (locked2 - locked1)
    requires SameBut(m1, m2, {e.frame} + Tables(sub2))
    ensures Tree(m2, spine, table, kids[i := Branch(e, sub2)], level)
    ensures Tables(kids[i := Branch(e, sub2)]) == Tables(kids) + (locked2 - locked0)
    ensures SameBut(m0, m2, {table} + Tables(kids[i := Branch(e, sub2)]))
  {
    assert forall f | f in TablesOf(kids[i]) :: f in Tables(kids);
    hide Tree, Tables;
    var extra := locked2 - locked0;
    assert TablesOf(Branch(e, sub2)) == {e.frame} + Tables(sub2);
    assert TablesOf(Branch(e, sub2)) == TablesOf(kids[i]) + extra;
    assert SameBut(m0, m2, {table} + TablesOf(kids[i]) + extra);
    GraftGrown(m0, m2, spine, table, kids, level, i, e, sub2, extra);
  }

  /** Writing a leaf table keeps the tree. */
  lemma {:induction false} GraftLeaf(m: Memory, m': Memory, spine: set<nat>, table: nat, kids: seq<Node>, i: nat, e: Pte)
    requires i < PT_LENGTH && Tree(m, spine, table, kids, PT_LAST_LEVEL)
    requires Fetch(m', table) == Fetch(m, table)[i := e]
    ensures Tree(m', spine, table, kids[i := if e.present then Leaf(e) else Hole], PT_LAST_LEVEL)
    ensures Tables(kids[i := if e.present then Leaf(e) else Hole]) == Tables(kids) == {}
  {
    var kids' := kids[i := if e.present then Leaf(e) else Hole];
    forall j | 0 <= j < PT_LENGTH
      ensures Holds(m', spine, Fetch(m', table)[j], kids'[j], PT_LAST_LEVEL)
      ensures TablesOf(kids'[j]) == TablesOf(kids[j]) == {}
    {
      assert Holds(m, spine, Fetch(m, table)[j], kids[j], PT_LAST_LEVEL);
    }
  }

  /** A cleared frame holds the empty tree. */
  lemma BlankTree(m: Memory, spine: set<nat>, table: nat, level: nat)
    requires level <= PT_LAST_LEVEL && Fetch(m, table) == BlankTable() && table !in spine
    ensures Tree(m, spine, table, NoKids(), level) && Tables(NoKids()) == {}
  {
    assert forall i | 0 <= i < PT_LENGTH :: TablesOf(NoKids()[i]) == {};
  }

  lemma TablesUpdate(kids: seq<Node>, i: nat, n: Node)
    requires i < |kids|
    requires forall j | 0 <= j < |kids| && j != i :: TablesOf(kids[j]) !! TablesOf(kids[i])
    ensures Tables(kids[i := n]) == Tables(kids) - TablesOf(kids[i]) + TablesOf(n)
  {
    var kids' := kids[i := n];
    forall f ensures f in Tables(kids') <==> f in Tables(kids) - TablesOf(kids[i]) + TablesOf(n) {
      if f in TablesOf(n) { assert f in TablesOf(kids'[i]); }
      if f in Tables(kids) && f !in TablesOf(kids[i]) {
        var j :| 0 <= j < |kids| && f in TablesOf(kids[j]);
        assert f in TablesOf(kids'[j]);
      }
      if f in Tables(kids') && f !in TablesOf(n) {
        var j :| 0 <= j < |kids| && f in TablesOf(kids'[j]);
        assert f in TablesOf(kids[j]);
      }
    }
  }

  // ---- The flat view -------------------------------------------------------------------------

  datatype Seen = Outside | Unmapped | Mapped(entry: Pte)

  /** The leaf entry a path leads to. */
  function Lookup(kids: seq<Node>, path: Path): Seen
    decreases path, 0
  {
    if path.End? || path.index >= |kids| then Outside else LookupIn(kids[path.index], path.rest)
  }

  function LookupIn(n: Node, path: Path): Seen
    decreases path, 1
  {
    match n
    case Hole => Unmapped
    case Foreign(_) => Outside
    case Leaf(e) => if path.End? then Mapped(e) else Outside
    case Branch(_, kids) => Lookup(kids, path)
  }

  /** The frame and the rights a path leads to, combined over the levels of the tree. */
  function Reach(kids: seq<Node>, path: Path): Walked
    decreases path, 0
  {
    if path.End? || path.index >= |kids| then Fault else ReachIn(kids[path.index], path.rest)
  }

  function ReachIn(n: Node, path: Path): Walked
    decreases path, 1
  {
    match n
    case Hole => Fault
    case Foreign(_) => Fault
    case Leaf(e) => if path.End? then Granted(e) else Fault
    case Branch(e, kids) => Through(e, Reach(kids, path))
  }

  /** Inside the tree, the processor's walk through memory finds what the tree says. */
  lemma {:induction false} WalkAgrees(m: Memory, spine: set<nat>, table: nat, kids: seq<Node>, level: nat, path: Path)
    requires level <= PT_LAST_LEVEL && Tree(m, spine, table, kids, level)
    requires IsPath(path, 4 - level) && !Lookup(kids, path).Outside?
    ensures Walk(m, table, path) == Reach(kids, path)
    ensures Lookup(kids, path).Unmapped? ==> Walk(m, table, path) == Fault
    ensures Lookup(kids, path).Mapped? ==>
              Walk(m, table, path).Reached? && Walk(m, table, path).frame == Lookup(kids, path).entry.frame
    decreases PT_LAST_LEVEL - level
  {
    var n := kids[path.index];
    assert Holds(m, spine, Fetch(m, table)[path.index], n, level);
    if n.Branch? {
      WalkAgrees(m, spine, n.entry.frame, n.kids, level + 1, path.rest);
    }
  }

  // ---- Writing leaf slots --------------------------------------------------------------------

  /**
   * Going from `kids` to `kids'` wrote entry `ptes[k]` to slot `slots[k]` and nothing else. The rights
   * of a written page are those of its leaf entry: no upper level takes any of them away.
   */
  ghost predicate Written(kids: seq<Node>, kids': seq<Node>, len: nat, slots: seq<Path>, ptes: seq<Pte>) {
    && |slots| == |ptes|
    && (forall k | 0 <= k < |slots| ::
          Lookup(kids', slots[k]) == Mapped(ptes[k]) && Reach(kids', slots[k]) == Granted(ptes[k]))
    && (forall p | IsPath(p, len) && p !in slots :: Lookup(kids', p) == Lookup(kids, p))
  }

  ghost predicate WrittenIn(n: Node, n': Node, len: nat, slots: seq<Path>, ptes: seq<Pte>) {
    && |slots| == |ptes|
    && (forall k | 0 <= k < |slots| ::
          LookupIn(n', slots[k]) == Mapped(ptes[k]) && ReachIn(n', slots[k]) == Granted(ptes[k]))
    && (forall p | IsPath(p, len) && p !in slots :: LookupIn(n', p) == LookupIn(n, p))
  }

  function Prepend(i: nat, paths: seq<Path>): (r: seq<Path>)
    ensures |r| == |paths| && forall k | 0 <= k < |r| :: r[k] == At(i, paths[k])
  {
    seq(|paths|, k requires 0 <= k < |paths| => At(i, paths[k]))
  }

  /** Writing below entry `i` and then below later entries. */
  lemma WrittenJoin(kids: seq<Node>, i: nat, n: Node, kids': seq<Node>, len: nat,
                    here: seq<Path>, ptes: seq<Pte>, rest: seq<Path>, more: seq<Pte>)
    requires i < |kids| == |kids'| && kids'[i] == n
    requires WrittenIn(kids[i], n, len, here, ptes) && Written(kids[i := n], kids', len + 1, rest, more)
    requires forall p | p in rest :: p.At? && p.index > i
    ensures Written(kids, kids', len + 1, Prepend(i, here) + rest, ptes + more)
  {
    var slots, all := Prepend(i, here) + rest, ptes + more;
    forall k | 0 <= k < |slots|
      ensures Lookup(kids', slots[k]) == Mapped(all[k]) && Reach(kids', slots[k]) == Granted(all[k])
    {
      if k < |here| {
        assert slots[k] == At(i, here[k]);
      } else {
        assert slots[k] == rest[k - |here|];
      }
    }
    forall p | IsPath(p, len + 1) && p !in slots
      ensures Lookup(kids', p) == Lookup(kids, p)
    {
      forall k | 0 <= k < |rest| ensures rest[k] != p { assert slots[|here| + k] == rest[k]; }
      if p.index == i {
        forall k | 0 <= k < |here| ensures here[k] != p.rest { assert slots[k] == At(i, here[k]); }
      }
    }
  }

  /** Writing in a table is writing below the entry that leads to it, if that entry takes no right away. */
  lemma WrittenBelow(n: Node, kids: seq<Node>, kids': seq<Node>, len: nat, slots: seq<Path>, ptes: seq<Pte>, e: Pte)
    requires forall p | IsPath(p, len) :: LookupIn(n, p) == Lookup(kids, p)
    requires Written(kids, kids', len, slots, ptes)
    requires forall k | 0 <= k < |ptes| :: Through(e, Granted(ptes[k])) == Granted(ptes[k])
    ensures WrittenIn(n, Branch(e, kids'), len, slots, ptes)
  {
  }
}
