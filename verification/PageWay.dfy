/** What `vm_init` adds to the boot tables (arch/x86_64/mm/vm.c): up to three entries on the way to the temporary window. */
module PageWay {
  import opened Paging
  import opened PageTree

  /** An entry `vm_init` writes: it leads to the window's own table, can be written, and keeps user code and execution out. */
  function WayEntry(tmp: Frame): Pte {
    Pte(true, true, false, true, tmp, 0)
  }

  /**
   * From `boot` to `m` the window's own table has been cleared and the last entry of each table in `spine` that was absent
   * now leads to it. Every other entry of every table is as before.
   */
  ghost predicate WayAdded(boot: Memory, m: Memory, spine: set<nat>, tmp: Frame) {
    forall f: nat, i: nat | i < PT_LENGTH ::
      Fetch(m, f)[i] == if i == 511 && f in spine && (f == tmp || !Fetch(boot, f)[511].present) then Pte(true, true, false, true, tmp, 0)
                        else if f == tmp then Pte(false, false, false, false, 0, 0)
                        else Fetch(boot, f)[i]
  }

  // ---- Walks ---------------------------------------------------------------------------------

  /** The walk of a path comes to the window's own table, or to one of the entries added. */
  predicate Uses(boot: Memory, table: nat, p: Path, spine: set<nat>, tmp: nat)
    decreases p
  {
    p.At? && p.index < PT_LENGTH &&
    (|| table == tmp
     || (p.index == 511 && table in spine && !Fetch(boot, table)[511].present)
     || (Fetch(boot, table)[p.index].present && Uses(boot, Fetch(boot, table)[p.index].frame, p.rest, spine, tmp)))
  }

  /** Every other page walks as it did before. */
  lemma {:induction false} WalkKept(boot: Memory, m: Memory, spine: set<nat>, tmp: Frame, table: nat, p: Path)
    requires WayAdded(boot, m, spine, tmp) && !Uses(boot, table, p, spine, tmp)
    ensures Walk(m, table, p) == Walk(boot, table, p)
    decreases p
  {
    if p.At? && p.index < PT_LENGTH {
      assert Fetch(m, table)[p.index] == Fetch(boot, table)[p.index];
      if Fetch(boot, table)[p.index].present {
        WalkKept(boot, m, spine, tmp, Fetch(boot, table)[p.index].frame, p.rest);
      }
    }
  }

  // ---- Trees ---------------------------------------------------------------------------------

  /** The tree with these entries added: they lead out of it. */
  ghost function WithWay(table: nat, kids: seq<Node>, spine: set<nat>, tmp: Frame): (r: seq<Node>)
    ensures |r| == |kids|
    decreases kids
  {
    seq(|kids|, i requires 0 <= i < |kids| =>
      if i == 511 && table in spine && kids[i].Hole? then Foreign(WayEntry(tmp)) else WithWayIn(kids[i], spine, tmp))
  }

  ghost function WithWayIn(n: Node, spine: set<nat>, tmp: Frame): Node
    decreases n
  {
    match n
    case Branch(e, kids) => Branch(e, WithWay(e.frame, kids, spine, tmp))
    case _ => n
  }

  /** A path of the tree comes to one of the entries added. */
  predicate OnWay(table: nat, kids: seq<Node>, spine: set<nat>, p: Path)
    decreases p
  {
    p.At? && p.index < |kids| &&
    (|| (p.index == 511 && table in spine && kids[511].Hole?)
     || (kids[p.index].Branch? && OnWay(kids[p.index].entry.frame, kids[p.index].kids, spine, p.rest)))
  }

  /** Memory holds the tree so changed if it held the tree before. */
  lemma {:induction false} WayTree(boot: Memory, m: Memory, spine: set<nat>, tmp: Frame, table: nat, kids: seq<Node>, level: nat)
    requires level <= PT_LAST_LEVEL && Tree(boot, spine, table, kids, level)
    requires WayAdded(boot, m, spine, tmp) && table != tmp && tmp !in Tables(kids)
    ensures Tree(m, spine, table, WithWay(table, kids, spine, tmp), level)
    ensures Tables(WithWay(table, kids, spine, tmp)) == Tables(kids)
    decreases PT_LAST_LEVEL - level, 1
  {
    var kids' := WithWay(table, kids, spine, tmp);
    forall i | 0 <= i < PT_LENGTH
      ensures Holds(m, spine, Fetch(m, table)[i], kids'[i], level) && TablesOf(kids'[i]) == TablesOf(kids[i])
    {
      WayHolds(boot, m, spine, tmp, table, kids, level, i);
    }
    hide WithWay, Holds, TablesOf, WayAdded;
    SameTables(kids, kids');
  }

  lemma SameTables(kids: seq<Node>, kids': seq<Node>)
    requires |kids| == |kids'| && forall i | 0 <= i < |kids| :: TablesOf(kids'[i]) == TablesOf(kids[i])
    ensures Tables(kids') == Tables(kids)
  {
    hide TablesOf;
    forall f
      ensures f in Tables(kids') <==> f in Tables(kids)
    {
      if f in Tables(kids') { var i :| 0 <= i < |kids| && f in TablesOf(kids'[i]); assert f in TablesOf(kids[i]); }
      if f in Tables(kids) { var i :| 0 <= i < |kids| && f in TablesOf(kids[i]); assert f in TablesOf(kids'[i]); }
    }
  }

  lemma {:induction false} WayHolds(boot: Memory, m: Memory, spine: set<nat>, tmp: Frame, table: nat, kids: seq<Node>, level: nat, i: nat)
    requires level <= PT_LAST_LEVEL && Tree(boot, spine, table, kids, level) && i < PT_LENGTH
    requires WayAdded(boot, m, spine, tmp) && table != tmp && tmp !in Tables(kids)
    ensures var n := WithWay(table, kids, spine, tmp)[i]; Holds(m, spine, Fetch(m, table)[i], n, level) && TablesOf(n) == TablesOf(kids[i])
    decreases PT_LAST_LEVEL - level, 0
  {
    assert Holds(boot, spine, Fetch(boot, table)[i], kids[i], level);
    EntryNow(boot, m, spine, tmp, table, i);
    hide WayAdded;
    if kids[i].Branch? {
      assert forall f | f in TablesOf(kids[i]) :: f in Tables(kids);
      WayTree(boot, m, spine, tmp, kids[i].entry.frame, kids[i].kids, level + 1);
    }
  }

  lemma EntryNow(boot: Memory, m: Memory, spine: set<nat>, tmp: Frame, f: nat, i: nat)
    requires WayAdded(boot, m, spine, tmp) && i < PT_LENGTH && f != tmp
    ensures Fetch(m, f)[i] == if i == 511 && f in spine && !Fetch(boot, f)[511].present then WayEntry(tmp) else Fetch(boot, f)[i]
  {
  }

  /** Pages on the way are outside the tree now; all others are seen as before, and no page's rights have changed. */
  lemma {:induction false} WayLookup(table: nat, kids: seq<Node>, spine: set<nat>, tmp: Frame, p: Path)
    ensures Lookup(WithWay(table, kids, spine, tmp), p) == if OnWay(table, kids, spine, p) then Outside else Lookup(kids, p)
    ensures OnWay(table, kids, spine, p) ==> Lookup(kids, p) == Unmapped
    ensures Reach(WithWay(table, kids, spine, tmp), p) == Reach(kids, p)
    decreases p
  {
    if p.At? && p.index < |kids| && kids[p.index].Branch? {
      WayLookup(kids[p.index].entry.frame, kids[p.index].kids, spine, tmp, p.rest);
    }
  }
}
