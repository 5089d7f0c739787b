/** The virtual memory manager (arch/x86_64/mm/vm.c). */
module VirtualMemory {
  import opened Status
  import opened FrameSet
  import opened Paging
  import opened PageTree
  import opened PageMap
  import opened PageFlag
  import opened PageUnmap
  import opened PageSearch
  import opened PageView
  import opened PageWay
  import opened Tlb
  import opened PhysicalMemory

  /** Index of the window in every upper table; the slot with this number is never handed out. */
  const RESERVED: nat := 511
  /** The first page of the window, address 0xffffffffffe00000. */
  const WINDOW_PAGE: nat := PAGE_LIMIT - PT_LENGTH

  /** A pointer to a table: through the kernel image, or through a slot of the temporary window. */
  datatype Ptr = Image(frame: nat) | Window(slot: nat)

  function WindowPath(slot: nat): Path {
    At(RESERVED, At(RESERVED, At(RESERVED, At(slot, End))))
  }

  lemma WindowPages(slot: nat)
    requires slot < PT_LENGTH
    ensures PathOf(WINDOW_PAGE + slot) == WindowPath(slot)
  {
  }

  /** Each of three tables leads on to the next through the reserved entry, the last one to the window's own table. */
  ghost predicate LeadsTo(m: Memory, root: nat, s1: nat, s2: nat, tmp: nat) {
    && Fetch(m, root)[RESERVED].present && Fetch(m, root)[RESERVED].frame == s1
    && Fetch(m, s1)[RESERVED].present && Fetch(m, s1)[RESERVED].frame == s2
    && Fetch(m, s2)[RESERVED].present && Fetch(m, s2)[RESERVED].frame == tmp
  }

  /** The three upper entries on the way to the window allow writing. */
  ghost predicate WayWritable(m: Memory, root: nat, s1: nat, s2: nat) {
    Fetch(m, root)[RESERVED].writable && Fetch(m, s1)[RESERVED].writable && Fetch(m, s2)[RESERVED].writable
  }

  /** Whether the kernel may write where a walk leads (Intel SDM 3A, 4.6.1): the right to write binds it only under CR0.WP. */
  predicate KernelMayWrite(w: Walked, writeProtect: bool) {
    w.Reached? && (writeProtect ==> w.writable)
  }

  lemma WindowWalk(m: Memory, root: nat, s1: nat, s2: nat, tmp: nat, slot: nat)
    requires LeadsTo(m, root, s1, s2, tmp) && slot < PT_LENGTH && Fetch(m, tmp)[slot].present
    ensures Walk(m, root, WindowPath(slot)).Reached?
    ensures Walk(m, root, WindowPath(slot)).frame == Fetch(m, tmp)[slot].frame
    ensures Walk(m, root, WindowPath(slot)).writable <==> WayWritable(m, root, s1, s2) && Fetch(m, tmp)[slot].writable
    ensures !Fetch(m, tmp)[slot].user ==> !Walk(m, root, WindowPath(slot)).user
    ensures Fetch(m, tmp)[slot].noExecute ==> Walk(m, root, WindowPath(slot)).noExecute
  {
    var p1 := At(slot, End);
    var p2 := At(RESERVED, p1);
    var p3 := At(RESERVED, p2);
    assert Walk(m, tmp, p1) == Granted(Fetch(m, tmp)[slot]);
    assert Walk(m, s2, p2) == Through(Fetch(m, s2)[RESERVED], Walk(m, tmp, p1));
    assert Walk(m, s1, p3) == Through(Fetch(m, s1)[RESERVED], Walk(m, s2, p2));
  }

  /** The lowest free slot of the window, or PT_LENGTH if there is none. */
  ghost predicate IsFirstFreeSlot(t: Table, f: nat) {
    && f <= PT_LENGTH && f != RESERVED && (f < PT_LENGTH ==> !t[f].present)
    && forall k | 0 <= k < f && k != RESERVED :: t[k].present
  }

  /** Every slot in use can be written, but neither used by user code nor executed. */
  ghost predicate PlainSlots(t: Table) {
    forall k | 0 <= k < 511 && t[k].present :: t[k] == Pte(true, true, false, true, t[k].frame, 0)
  }

  ghost predicate AllFree(t: Table) {
    forall k | 0 <= k < RESERVED :: t[k] == BLANK
  }

  lemma ManyFree(t: Table)
    requires AllFree(t)
    ensures |FreeSlots(t)| == RESERVED
  {
    assert FreeSlots(t) == Below(RESERVED);
  }

  ghost function FreeSlots(t: Table): set<nat> {
    set k | 0 <= k < PT_LENGTH && k != RESERVED && !t[k].present
  }

  lemma {:induction false} FreeSlotTaken(t: Table, f: nat, e: Pte)
    requires f < PT_LENGTH && f != RESERVED && !t[f].present && e.present
    ensures FreeSlots(t[f := e]) == FreeSlots(t) - {f} && |FreeSlots(t[f := e])| == |FreeSlots(t)| - 1
  {
    assert f in FreeSlots(t);
    assert FreeSlots(t[f := e]) == FreeSlots(t) - {f};
  }

  ghost predicate UsableIn(t: Table, p: Ptr) {
    p.Window? ==> p.slot < PT_LENGTH && t[p.slot].present
  }

  ghost function FrameIn(t: Table, p: Ptr): nat
    requires UsableIn(t, p)
  {
    match p
    case Image(f) => f
    case Window(k) => t[k].frame
  }

  /** The window went from `t0` to `t` by taking the free slot of `child`. */
  ghost predicate Took(t0: Table, t: Table, child: Ptr) {
    && child.Window? && child.slot < PT_LENGTH && child.slot != RESERVED && t0[child.slot] == BLANK
    && t == t0[child.slot := t[child.slot]]
  }

  // ---- Setting the window up -----------------------------------------------------------------

  /** One step of `vm_init` at table `pt`: follow the reserved entry, or aim it at the window's own table. */
  function InitStep(m: Memory, tmp: nat, pt: nat): (r: (Memory, nat)) {
    var e := Fetch(m, pt)[RESERVED];
    if e.present && pt != tmp then (m, e.frame)
    else (m[pt := Fetch(m, pt)[RESERVED := SetPte(tmp, WRITE_ONLY)]], tmp)
  }

  function InitSteps(m: Memory, tmp: nat, pt: nat, n: nat): Memory
    decreases n
  {
    if n == 0 then m else var (m', pt') := InitStep(m, tmp, pt); InitSteps(m', tmp, pt', n - 1)
  }

  /** The second and third table on the way to the window once `vm_init` is done. */
  function SpineAfter(boot: Memory, root: nat, tmp: nat): (nat, nat) {
    var s1 := if Fetch(boot, root)[511].present then Fetch(boot, root)[511].frame else tmp;
    (s1, if s1 != tmp && Fetch(boot, s1)[511].present then Fetch(boot, s1)[511].frame else tmp)
  }

  ghost predicate AllThreePresent(boot: Memory, root: nat, tmp: nat) {
    var (s1, s2) := SpineAfter(boot, root, tmp);
    && Fetch(boot, root)[511].present && s1 != tmp && Fetch(boot, s1)[511].present && s2 != tmp && Fetch(boot, s2)[511].present
  }

  /**
   * `vm_init` writes the absent entries on the way to the window and nothing else. It opens the way exactly if one of the
   * three was absent, or the way was open already.
   */
  lemma InitOpens(boot: Memory, root: nat, tmp: Frame)
    requires root != tmp
    ensures var m := InitSteps(boot[tmp := BlankTable()], tmp, root, 3);
            var (s1, s2) := SpineAfter(boot, root, tmp);
            && WayAdded(boot, m, {root, s1, s2}, tmp)
            && (LeadsTo(m, root, s1, s2, tmp) <==> (AllThreePresent(boot, root, tmp) ==> LeadsTo(boot, root, s1, s2, tmp)))
  {
    var m := boot[tmp := BlankTable()];
    var (m1, p1) := InitStep(m, tmp, root);
    var (m2, p2) := InitStep(m1, tmp, p1);
    var (m3, p3) := InitStep(m2, tmp, p2);
    assert InitSteps(m, tmp, root, 3) == InitSteps(m1, tmp, p1, 2) == InitSteps(m2, tmp, p2, 1) == m3;
  }

  class PageTables {
    /** All tables in physical memory but the window's own one, which is a variable of the kernel. */
    var mem: Memory
    var tmpPt: Table
    var firstFreeTmp: nat
    /** What the processor has cached: frames of window slots, and frames of all other pages. */
    var tmpTlb: map<nat, nat>
    var tlb: map<nat, nat>
    /** The tree held by the tables below `kpml4`. */
    ghost var tree: seq<Node>

    const kpml4: nat
    /** The frame of the window's own table, and the two tables between the root and it. */
    const tmp: nat
    ghost const spine1: nat
    ghost const spine2: nat

    const pm: FrameAllocator

    /** `vm_init`, on the memory the boot code leaves behind. */
    constructor (boot: Memory, cr3: nat, tmp: nat, pm: FrameAllocator)
      requires cr3 != tmp < FRAME_LIMIT
      ensures WayAdded(boot, Ram(), Spine(), tmp) && Ram() == InitSteps(boot[tmp := BlankTable()], tmp, cr3, 3)
      ensures this.kpml4 == cr3 && this.tmp == tmp && this.pm == pm && tlb == map[]
      ensures (spine1, spine2) == SpineAfter(boot, cr3, tmp)
      ensures !AllThreePresent(boot, cr3, tmp) ==> WindowOk() && firstFreeTmp == 0 && AllFree(tmpPt)
    {
      var blank: Memory := boot[tmp := BlankTable()];
      this.kpml4, this.tmp, this.pm, this.tmpTlb, this.tlb := cr3, tmp, pm, map[], map[];
      this.spine1, this.spine2 := SpineAfter(boot, cr3, tmp).0, SpineAfter(boot, cr3, tmp).1;
      this.mem, this.tmpPt, this.firstFreeTmp := blank, BlankTable(), 0;
      this.tree := [];
      new;
      OpenWindow(boot);
    }

    /** `vm_init` once the window's own table has been cleared. */
    method OpenWindow(ghost boot: Memory)
      requires mem == boot[tmp := BlankTable()] && kpml4 != tmp < FRAME_LIMIT && tmpTlb == map[]
      requires (spine1, spine2) == SpineAfter(boot, kpml4, tmp)
      modifies `mem, `tmpPt, `firstFreeTmp
      ensures WayAdded(boot, Ram(), Spine(), tmp) && Ram() == InitSteps(boot[tmp := BlankTable()], tmp, kpml4, 3)
      ensures !AllThreePresent(boot, kpml4, tmp) ==> WindowOk() && firstFreeTmp == 0 && AllFree(tmpPt)
    {
      InitOpens(boot, kpml4, tmp);
      hide WayAdded, InitSteps, SpineAfter, LeadsTo, AllThreePresent;
      AimWay();
      var t := Fetch(mem, tmp);
      assert mem[tmp := t] == mem && t[0] == BLANK && AllFree(t);
      hide Fetch;
      tmpPt := t;
      FindFirstFreeTmp();
    }

    /** The loop of `vm_init`: three tables, each entered through the entry that leads to the next or is made to lead to the window. */
    method AimWay()
      requires Fetch(mem, tmp) == BlankTable() && tmp in mem && tmp < FRAME_LIMIT
      modifies `mem
      ensures mem == InitSteps(old(mem), tmp, kpml4, 3) && tmp in mem
      ensures forall k | 0 <= k < PT_LENGTH && k != RESERVED :: Fetch(mem, tmp)[k] == BLANK
      ensures Fetch(mem, tmp)[RESERVED].present || Fetch(mem, tmp)[RESERVED] == BLANK
    {
      var pt := kpml4;
      for i := 0 to 3
        modifies `mem
        invariant InitSteps(mem, tmp, pt, 3 - i) == InitSteps(old(mem), tmp, kpml4, 3)
        invariant forall k | 0 <= k < PT_LENGTH && k != RESERVED :: Fetch(mem, tmp)[k] == BLANK
        invariant Fetch(mem, tmp)[RESERVED].present || Fetch(mem, tmp)[RESERVED] == BLANK
        invariant tmp in mem
      {
        var e := Fetch(mem, pt)[RESERVED];
        if e.present && pt != tmp {
          pt := e.frame;
        } else {
          mem := mem[pt := Fetch(mem, pt)[RESERVED := SetPte(tmp, WRITE_ONLY)]];
          pt := tmp;
        }
      }
    }

    method FindFirstFreeTmp()
      requires exists k | 0 <= k < RESERVED :: !tmpPt[k].present
      modifies `firstFreeTmp
      ensures IsFirstFreeSlot(tmpPt, firstFreeTmp) && firstFreeTmp < RESERVED
    {
      firstFreeTmp := 0;
      while tmpPt[firstFreeTmp].present
        modifies `firstFreeTmp
        invariant firstFreeTmp < RESERVED && forall k | 0 <= k < firstFreeTmp :: tmpPt[k].present
        decreases RESERVED - firstFreeTmp
      {
        firstFreeTmp := firstFreeTmp + 1;
      }
    }

    /** Physical memory as the processor sees it. */
    function Ram(): Memory
      reads this
    {
      mem[tmp := tmpPt]
    }

    ghost function Spine(): set<nat> {
      {kpml4, spine1, spine2}
    }

    ghost predicate WindowOk()
      reads this
    {
      WindowLeads() && PlainSlots(tmpPt)
    }

    ghost predicate WindowLeads()
      reads this
    {
      && LeadsTo(Ram(), kpml4, spine1, spine2, tmp)
      && IsFirstFreeSlot(tmpPt, firstFreeTmp)
      && (forall k | 0 <= k < PT_LENGTH :: tmpPt[k].present || tmpPt[k] == BLANK)
      && (forall k | k in tmpTlb :: k < PT_LENGTH && tmpPt[k].present && tmpTlb[k] == tmpPt[k].frame)
    }

    /** The walk of a slot in use ends at its frame; it is writable exactly if the way to the window is, and neither for user code nor for execution. */
    lemma SlotWalk(slot: nat)
      requires WindowOk() && slot < 511 && tmpPt[slot].present
      ensures Walk(Ram(), kpml4, WindowPath(slot)) == Reached(tmpPt[slot].frame, WayWritable(Ram(), kpml4, spine1, spine2), false, true)
    {
      WindowWalk(Ram(), kpml4, spine1, spine2, tmp, slot);
    }

    /** The kernel may write through a slot in use: under CR0.WP exactly if the way to the window allows it, and without it always. */
    lemma SlotWritable(slot: nat, writeProtect: bool)
      requires WindowOk() && slot < 511 && tmpPt[slot].present
      ensures KernelMayWrite(Walk(Ram(), kpml4, WindowPath(slot)), writeProtect) <==>
                (writeProtect ==> WayWritable(Ram(), kpml4, spine1, spine2))
    {
      SlotWalk(slot);
    }

    ghost predicate Usable(p: Ptr)
      reads `tmpPt
    {
      UsableIn(tmpPt, p)
    }

    ghost function FrameAt(p: Ptr): nat
      requires Usable(p)
      reads `tmpPt
    {
      FrameIn(tmpPt, p)
    }

    /** The frame the processor accesses through a pointer: its cache first, then the tables. */
    method Resolve(p: Ptr) returns (f: nat)
      requires WindowOk() && Usable(p)
      modifies `tmpTlb
      ensures WindowOk() && f == FrameAt(p)
    {
      match p
      case Image(frame) => f := frame;
      case Window(slot) =>
        if slot in tmpTlb {
          f := tmpTlb[slot];
        } else {
          WindowWalk(Ram(), kpml4, spine1, spine2, tmp, slot);
          var w := Walk(Ram(), kpml4, WindowPath(slot));
          f := w.frame;
          tmpTlb := tmpTlb[slot := f];
        }
    }

    method Load(p: Ptr, i: nat) returns (e: Pte)
      requires WindowOk() && Usable(p) && i < PT_LENGTH
      modifies `tmpTlb
      ensures WindowOk() && e == Fetch(Ram(), FrameAt(p))[i]
    {
      var f := Resolve(p);
      e := Fetch(Ram(), f)[i];
    }

    /** A write to a table other than the window's own; the way to the window stays. */
    method Store(p: Ptr, i: nat, e: Pte)
      requires WindowOk() && Usable(p) && i < PT_LENGTH && FrameAt(p) != tmp
      requires FrameAt(p) in Spine() && Fetch(mem, FrameAt(p))[i].present ==> e.present && e.frame == Fetch(mem, FrameAt(p))[i].frame
      modifies `tmpTlb, `mem
      ensures WindowOk() && mem == old(mem)[FrameAt(p) := Fetch(old(mem), FrameAt(p))[i := e]]
    {
      var f := Resolve(p);
      mem := mem[f := Fetch(mem, f)[i := e]];
    }

    /** `mem_set` of a whole table. */
    method Clear(p: Ptr)
      requires WindowOk() && Usable(p) && FrameAt(p) != tmp && FrameAt(p) !in Spine()
      modifies `tmpTlb, `mem
      ensures WindowOk() && mem == old(mem)[FrameAt(p) := BlankTable()]
    {
      var f := Resolve(p);
      mem := mem[f := BlankTable()];
    }

    method MapPageTmp(frame: nat, flags: Flags) returns (p: Ptr)
      requires WindowOk() && FreeSlots(tmpPt) != {} && frame < FRAME_LIMIT
      modifies `tmpPt, `firstFreeTmp
      ensures WindowLeads() && (flags.writable && !flags.user && !flags.executable ==> WindowOk())
      ensures p == Window(old(firstFreeTmp)) && p.slot < PT_LENGTH && p.slot != RESERVED
      ensures old(tmpPt)[p.slot] == BLANK && tmpPt == old(tmpPt)[p.slot := SetPte(frame, flags)]
      ensures |FreeSlots(tmpPt)| == |FreeSlots(old(tmpPt))| - 1
    {
      assert firstFreeTmp < PT_LENGTH by {
        ghost var k :| k in FreeSlots(tmpPt);
      }
      var slot := firstFreeTmp;
      FreeSlotTaken(tmpPt, slot, SetPte(frame, flags));
      tmpPt := tmpPt[slot := SetPte(frame, flags)];
      firstFreeTmp := firstFreeTmp + 1;
      if firstFreeTmp == RESERVED {
        firstFreeTmp := firstFreeTmp + 1;
      }
      while firstFreeTmp < PT_LENGTH && tmpPt[firstFreeTmp].present
        modifies `firstFreeTmp
        invariant firstFreeTmp <= PT_LENGTH && firstFreeTmp != RESERVED
        invariant forall k | 0 <= k < firstFreeTmp && k != RESERVED :: tmpPt[k].present
      {
        firstFreeTmp := firstFreeTmp + 1;
        if firstFreeTmp == RESERVED {
          firstFreeTmp := firstFreeTmp + 1;
        }
      }
      return Window(slot);
    }

    method UnmapPageTmp(p: Ptr)
      requires WindowOk() && p.Window? && p.slot < PT_LENGTH && p.slot != RESERVED
      modifies `tmpPt, `firstFreeTmp, `tmpTlb
      ensures WindowOk() && tmpPt == old(tmpPt)[p.slot := BLANK]
    {
      tmpPt := tmpPt[p.slot := BLANK];
      tmpTlb := tmpTlb - {p.slot};
      if p.slot < firstFreeTmp {
        firstFreeTmp := p.slot;
      }
    }

    // ---- Walkers ---------------------------------------------------------------------------

    /** With memory `m` and window `t`, pointer `p` leads to a table that holds `kids`, and enough slots are free. */
    ghost predicate Stands(m: Memory, t: Table, p: Ptr, kids: seq<Node>, level: nat)
      requires level <= PT_LAST_LEVEL
    {
      && UsableIn(t, p) && PT_LAST_LEVEL - level <= |FreeSlots(t)|
      && FrameIn(t, p) != tmp && tmp !in Tables(kids)
      && Tree(m, Spine(), FrameIn(t, p), kids, level)
    }

    /** A walker may start at pointer `p`. */
    ghost predicate Ready(p: Ptr, kids: seq<Node>, level: nat)
      requires level <= PT_LAST_LEVEL
      reads this
    {
      WindowOk() && Stands(mem, tmpPt, p, kids, level)
    }

    /** What a walker finds at entry `i`. */
    lemma Descend(p: Ptr, kids: seq<Node>, level: nat, i: nat)
      requires level <= PT_LAST_LEVEL && i < PT_LENGTH && Ready(p, kids, level)
      ensures var e, n := Fetch(mem, FrameAt(p))[i], kids[i];
              && |kids| == PT_LENGTH && e == Fetch(Ram(), FrameAt(p))[i] && FrameAt(p) !in Tables(kids)
              && (e.present <==> !n.Hole?) && (e.present ==> e == n.entry)
              && (n.Leaf? ==> level == PT_LAST_LEVEL)
              && (level < PT_LAST_LEVEL ==> FreeSlots(tmpPt) != {})
              && (n.Branch? ==>
                    && level < PT_LAST_LEVEL && e.frame in Tables(kids) && Tables(n.kids) <= Tables(kids)
                    && Tree(mem, Spine(), e.frame, n.kids, level + 1))
    {
      assert Holds(mem, Spine(), Fetch(mem, FrameAt(p))[i], kids[i], level);
      if kids[i].Branch? {
        assert forall f | f in TablesOf(kids[i]) :: f in Tables(kids);
      }
    }

    /** Reads entry `i` of a walker's table. */
    method LoadEntry(p: Ptr, ghost kids: seq<Node>, level: nat, i: nat) returns (e: Pte)
      requires level <= PT_LAST_LEVEL && i < PT_LENGTH && Ready(p, kids, level)
      modifies `tmpTlb
      ensures Ready(p, kids, level) && |kids| == PT_LENGTH && (e.present <==> !kids[i].Hole?) && (e.present ==> e == kids[i].entry)
      ensures (kids[i].Leaf? ==> level == PT_LAST_LEVEL) && (kids[i].Branch? ==> level < PT_LAST_LEVEL)
      ensures Usable(p) && FrameAt(p) == old(FrameAt(p)) != tmp
    {
      hide IsFirstFreeSlot, LeadsTo, Tree, Tables;
      Descend(p, kids, level, i);
      e := Load(p, i);
    }

    method RecurseFind(pt: Ptr, idx: seq<nat>, level: nat, ghost kids: seq<Node>) returns (res: Status, frame: nat)
      requires level <= PT_LAST_LEVEL && |idx| == 4 && (forall k | 0 <= k < 4 :: idx[k] < PT_LENGTH)
      requires Ready(pt, kids, level) && !Lookup(kids, PathFrom(idx, level)).Outside?
      modifies `tmpTlb, `tmpPt, `firstFreeTmp
      ensures WindowOk() && tmpPt == old(tmpPt)
      ensures Lookup(kids, PathFrom(idx, level)).Unmapped? ==> res == ENOMAP
      ensures Lookup(kids, PathFrom(idx, level)).Mapped? ==>
                res == SUCCESS && frame == Lookup(kids, PathFrom(idx, level)).entry.frame
      decreases PT_LAST_LEVEL - level
    {
      hide Tree, Holds, LeadsTo, IsFirstFreeSlot, FreeSlots, Tables;
      ghost var n := kids[idx[level]];
      Descend(pt, kids, level, idx[level]);
      var e := Load(pt, idx[level]);
      if !e.present {
        return ENOMAP, 0;
      } else if level == PT_LAST_LEVEL {
        return SUCCESS, e.frame;
      }
      var child := MapPageTmp(e.frame, WRITE_ONLY);
      res, frame := RecurseFind(child, idx, level + 1, n.kids);
      UnmapPageTmp(child);
    }

    // ---- Mapping ---------------------------------------------------------------------------

    /** Every table in use is locked, so no frame the allocator hands out is one of them. */
    ghost predicate Owns(locked: set<nat>, t: Table, p: Ptr, kids: seq<Node>) {
      UsableIn(t, p) && Tables(kids) + Spine() + {FrameIn(t, p), tmp} <= locked
    }

    ghost predicate Owned(p: Ptr, kids: seq<Node>)
      reads this, pm.Repr()
    {
      pm.Valid() && Owns(pm.locked, tmpPt, p, kids)
    }

    /** Clears a frame and enters it into an absent entry. */
    method InstallPt(pt: Ptr, i: nat, frame: nat) returns (child: Ptr)
      requires WindowOk() && Usable(pt) && FreeSlots(tmpPt) != {} && i < PT_LENGTH
      requires FrameAt(pt) != tmp && !Fetch(mem, FrameAt(pt))[i].present
      requires frame < FRAME_LIMIT && frame !in Spine() && frame != tmp && frame != FrameAt(pt)
      modifies `tmpTlb, `tmpPt, `firstFreeTmp, `mem
      ensures WindowOk() && child.Window? && child.slot < PT_LENGTH && child.slot != RESERVED
      ensures old(tmpPt)[child.slot] == BLANK && tmpPt == old(tmpPt)[child.slot := SetPte(frame, WRITE_ONLY)]
      ensures |FreeSlots(tmpPt)| == |FreeSlots(old(tmpPt))| - 1
      ensures Fetch(mem, frame) == BlankTable()
      ensures Fetch(mem, old(FrameAt(pt))) == Fetch(old(mem), old(FrameAt(pt)))[i := SetPte(frame, WRITE_ONLY)]
      ensures SameBut(old(mem), mem, {frame, old(FrameAt(pt))})
    {
      hide IsFirstFreeSlot, FreeSlots, LeadsTo, BlankTable;
      child := MapPageTmp(frame, WRITE_ONLY);
      Clear(child);
      Store(pt, i, SetPte(frame, WRITE_ONLY));
    }

    /** A new, empty table for an absent entry; the pointer is to the new table. */
    method CreatePt(pt: Ptr, i: nat, ghost after: set<nat>) returns (child: Ptr)
      requires WindowOk() && Usable(pt) && FreeSlots(tmpPt) != {} && i < PT_LENGTH
      requires pm.Valid() && Spine() + {FrameAt(pt), tmp} <= pm.locked
      requires FrameAt(pt) != tmp && !Fetch(mem, FrameAt(pt))[i].present
      requires pm.Affords(after) && LeastFree(pm.locked) in after
      modifies `tmpTlb, `tmpPt, `firstFreeTmp, `mem, pm, pm.bitmap`unset, pm.bitmap.bytes
      ensures WindowOk() && pm.Valid() && pm.Affords(after)
      ensures var f := LeastFree(old(pm.locked));
              && f < FRAME_LIMIT && pm.locked == old(pm.locked) + {f}
              && child.Window? && child.slot < PT_LENGTH && child.slot != RESERVED
              && old(tmpPt)[child.slot] == BLANK && tmpPt == old(tmpPt)[child.slot := SetPte(f, WRITE_ONLY)]
              && |FreeSlots(tmpPt)| == |FreeSlots(old(tmpPt))| - 1
              && Fetch(mem, f) == BlankTable()
              && Fetch(mem, old(FrameAt(pt))) == Fetch(old(mem), old(FrameAt(pt)))[i := SetPte(f, WRITE_ONLY)]
              && SameBut(old(mem), mem, {f, old(FrameAt(pt))})
    {
      hide IsFirstFreeSlot, FreeSlots, LeadsTo, BlankTable, SameBut;
      ghost var f := LeastFree(pm.locked);
      assert f !in pm.locked;
      var paddr := pm.RequestWithin(after);
      assert paddr / PAGE_SIZE == f;
      child := InstallPt(pt, i, paddr / PAGE_SIZE);
    }

    method UpdatePtPteFlags(pt: Ptr, i: nat, flags: Flags) returns (e: Pte)
      requires WindowOk() && Usable(pt) && i < PT_LENGTH && FrameAt(pt) != tmp
      modifies `tmpTlb, `mem
      ensures WindowOk() && e == Retag(Fetch(old(mem), old(FrameAt(pt)))[i], flags)
      ensures Fetch(mem, FrameAt(pt)) == Fetch(old(mem), FrameAt(pt))[i := e]
      ensures SameBut(old(mem), mem, {FrameAt(pt)})
    {
      e := Load(pt, i);
      e := Retag(e, flags);
      Store(pt, i, e);
    }

    /**
     * The walker at `table` has entered its child at entry `i`, by the pointer `child`; `m0`, `locked0` and
     * `tmp0` are memory, locked frames and window at the beginning.
     */
    ghost predicate Entered(m0: Memory, locked0: set<nat>, tmp0: Table, table: nat, child: Ptr, i: nat, level: nat,
                            kids: seq<Node>, e: Pte, sub: seq<Node>)
      requires level < PT_LAST_LEVEL && i < |kids| && i < PT_LENGTH
      reads this, pm
    {
      && Took(tmp0, tmpPt, child) && Ready(child, sub, level + 1) && FrameAt(child) == e.frame
      && Extended(m0, locked0, mem, pm.locked, table, i, kids[i], e, sub)
    }

    /** Entering a table that was there. */
    method OpenOld(pt: Ptr, i: nat, level: nat, frame: nat, ghost kids: seq<Node>) returns (child: Ptr)
      requires level < PT_LAST_LEVEL && i < PT_LENGTH && Ready(pt, kids, level)
      requires kids[i].Branch? && frame == kids[i].entry.frame
      modifies `tmpPt, `firstFreeTmp
      ensures Entered(mem, pm.locked, old(tmpPt), old(FrameAt(pt)), child, i, level, kids, kids[i].entry, kids[i].kids)
      ensures Usable(pt) && FrameAt(pt) == old(FrameAt(pt))
    {
      hide WindowOk, IsFirstFreeSlot, FreeSlots, LeadsTo, Tree, Tables, SameBut;
      Descend(pt, kids, level, i);
      child := MapPageTmp(frame, WRITE_ONLY);
      StayedAt(mem, FrameAt(pt), i, kids[i], pm.locked);
    }

    /** Entering a table made for the purpose. */
    method OpenNew(pt: Ptr, i: nat, level: nat, ghost kids: seq<Node>, ghost after: set<nat>) returns (child: Ptr)
      requires level < PT_LAST_LEVEL && i < PT_LENGTH && Ready(pt, kids, level) && Owned(pt, kids) && kids[i].Hole?
      requires pm.Affords(after) && LeastFree(pm.locked) in after
      modifies `tmpTlb, `tmpPt, `firstFreeTmp, `mem, pm, pm.bitmap`unset, pm.bitmap.bytes
      ensures LeastFree(old(pm.locked)) < FRAME_LIMIT && pm.locked == old(pm.locked) + {LeastFree(old(pm.locked))}
      ensures Entered(old(mem), old(pm.locked), old(tmpPt), old(FrameAt(pt)), child, i, level, kids,
                      SetPte(LeastFree(old(pm.locked)), WRITE_ONLY), NoKids())
      ensures Usable(pt) && FrameAt(pt) == old(FrameAt(pt)) && pm.Valid() && pm.Affords(after)
    {
      hide WindowOk, SetPte, Granted, TablesOf, Fetch, IsFirstFreeSlot, FreeSlots, LeadsTo, Tree, Tables, BlankTable, SameBut, NoKids;
      Descend(pt, kids, level, i);
      ghost var m, locked, t0 := mem, pm.locked, tmpPt;
      child := CreatePt(pt, i, after);
      NewEntered(m, locked, t0, pt, child, i, level, kids, LeastFree(locked));
    }

    lemma NewEntered(m: Memory, locked: set<nat>, t0: Table, pt: Ptr, child: Ptr, i: nat, level: nat, kids: seq<Node>, f: nat)
      requires level < PT_LAST_LEVEL && i < PT_LENGTH && |kids| == PT_LENGTH && kids[i].Hole? && WindowOk()
      requires Stands(m, t0, pt, kids, level) && Owns(locked, t0, pt, kids) && FrameIn(t0, pt) !in Tables(kids)
      requires f < FRAME_LIMIT && f !in locked && pm.locked == locked + {f}
      requires child.Window? && child.slot < PT_LENGTH && child.slot != RESERVED && t0[child.slot] == BLANK
      requires tmpPt == t0[child.slot := SetPte(f, WRITE_ONLY)] && |FreeSlots(tmpPt)| == |FreeSlots(t0)| - 1
      requires Fetch(mem, f) == BlankTable() && SameBut(m, mem, {f, FrameIn(t0, pt)})
      requires Fetch(mem, FrameIn(t0, pt)) == Fetch(m, FrameIn(t0, pt))[i := SetPte(f, WRITE_ONLY)]
      ensures Entered(m, locked, t0, FrameIn(t0, pt), child, i, level, kids, SetPte(f, WRITE_ONLY), NoKids())
      ensures Usable(pt) && FrameAt(pt) == FrameIn(t0, pt)
    {
      hide WindowOk, Granted, TablesOf, IsFirstFreeSlot, FreeSlots, LeadsTo, Tree, Tables, BlankTable, SameBut, NoKids, Fetch;
      BlankTree(mem, Spine(), FrameAt(child), level + 1);
      GrewBy(m, mem, locked, f, FrameIn(t0, pt), SetPte(f, WRITE_ONLY));
    }

    /** `update_pt_pte_flags` on the entry whose table has been entered. */
    method RetagEntry(pt: Ptr, i: nat, flags: Flags, ghost m0: Memory, ghost locked0: set<nat>, ghost tmp0: Table, child: Ptr,
                      ghost level: nat, ghost kids: seq<Node>, ghost e: Pte, ghost sub: seq<Node>)
      requires level < PT_LAST_LEVEL && i < |kids| && i < PT_LENGTH && Usable(pt) && FrameAt(pt) != tmp
      requires Entered(m0, locked0, tmp0, FrameAt(pt), child, i, level, kids, e, sub)
      modifies `tmpTlb, `mem
      ensures Entered(m0, locked0, tmp0, FrameAt(pt), child, i, level, kids, Retag(e, flags), sub)
    {
      hide WindowOk, IsFirstFreeSlot, FreeSlots, LeadsTo, Tree, Tables, SameBut;
      ghost var m := mem;
      var e' := UpdatePtPteFlags(pt, i, flags);
      assert e' == Retag(e, flags);
      RetagSame(m0, m, mem, FrameAt(pt), pm.locked - locked0, sub, e, e');
      TreeFrame(m, mem, Spine(), FrameAt(child), sub, level + 1);
    }

    /** The child just entered is ready and owned, as is everything below it. */
    lemma EnteredBelow(m0: Memory, locked0: set<nat>, tmp0: Table, pt: Ptr, child: Ptr, i: nat, level: nat,
                       kids: seq<Node>, e: Pte, sub: seq<Node>)
      requires level < PT_LAST_LEVEL && i < |kids| && i < PT_LENGTH && pm.Valid() && Owns(locked0, tmp0, pt, kids)
      requires Entered(m0, locked0, tmp0, FrameIn(tmp0, pt), child, i, level, kids, e, sub)
      ensures Took(tmp0, tmpPt, child) && Ready(child, sub, level + 1) && Owned(child, sub)
      ensures UsableIn(tmpPt, child) && FrameIn(tmpPt, child) == e.frame
      ensures Extended(m0, locked0, mem, pm.locked, FrameIn(tmp0, pt), i, kids[i], e, sub)
    {
      assert forall f | f in TablesOf(kids[i]) :: f in Tables(kids);
      assert TablesOf(Branch(e, sub)) <= pm.locked;
    }

    /**
     * A walker that has entered the table below the root's own entry for the window, and given that entry new rights,
     * writes on through a window that carries these rights.
     */
    lemma EnteredWindow(m0: Memory, locked0: set<nat>, tmp0: Table, child: Ptr, kids: seq<Node>, e: Pte, sub: seq<Node>)
      requires RESERVED < |kids| && kpml4 != tmp && Entered(m0, locked0, tmp0, kpml4, child, RESERVED, 0, kids, e, sub)
      ensures child.Window? && (WayWritable(Ram(), kpml4, spine1, spine2) ==> e.writable)
    {
    }

    /** An existing table is entered and the rights of its entry are brought up to date. */
    method EnterOld(pt: Ptr, i: nat, level: nat, frame: nat, flags: Flags, ghost kids: seq<Node>) returns (child: Ptr)
      requires level < PT_LAST_LEVEL && i < PT_LENGTH && Ready(pt, kids, level)
      requires kids[i].Branch? && frame == kids[i].entry.frame
      modifies `tmpTlb, `tmpPt, `firstFreeTmp, `mem
      ensures Entered(old(mem), pm.locked, old(tmpPt), old(FrameAt(pt)), child, i, level, kids, Retag(kids[i].entry, flags), kids[i].kids)
    {
      hide WindowOk, Tables, SameBut, Entered;
      ghost var m0, tmp0 := mem, tmpPt;
      child := OpenOld(pt, i, level, frame, kids);
      RetagEntry(pt, i, flags, m0, pm.locked, tmp0, child, level, kids, kids[i].entry, kids[i].kids);
    }

    method EnterNew(pt: Ptr, i: nat, level: nat, flags: Flags, ghost kids: seq<Node>, ghost after: set<nat>) returns (child: Ptr)
      requires level < PT_LAST_LEVEL && i < PT_LENGTH && Ready(pt, kids, level) && Owned(pt, kids) && kids[i].Hole?
      requires pm.Affords(after) && LeastFree(pm.locked) in after
      modifies `tmpTlb, `tmpPt, `firstFreeTmp, `mem, pm, pm.bitmap`unset, pm.bitmap.bytes
      ensures pm.locked == old(pm.locked) + {LeastFree(old(pm.locked))} && pm.Valid() && pm.Affords(after)
      ensures Entered(old(mem), old(pm.locked), old(tmpPt), old(FrameAt(pt)), child, i, level, kids,
                      Retag(SetPte(LeastFree(old(pm.locked)), WRITE_ONLY), flags), NoKids())
    {
      hide WindowOk, Tables, SameBut, NoKids, Entered;
      ghost var m0, locked0, tmp0 := mem, pm.locked, tmpPt;
      child := OpenNew(pt, i, level, kids, after);
      RetagEntry(pt, i, flags, m0, locked0, tmp0, child, level, kids, SetPte(LeastFree(locked0), WRITE_ONLY), NoKids());
    }

    /** The first half of a step of `recurse_map` above the last level: the child table and the rights of its entry. */
    method EnterToMap(pt: Ptr, i: nat, level: nat, flags: Flags, ghost kids: seq<Node>, ghost after: set<nat>)
      returns (child: Ptr, ghost e: Pte, ghost sub: seq<Node>)
      requires level < PT_LAST_LEVEL && i < PT_LENGTH && Ready(pt, kids, level) && Owned(pt, kids)
      requires kids[i].Hole? || kids[i].Branch?
      requires pm.Affords(after) && (kids[i].Hole? ==> LeastFree(pm.locked) in after)
      modifies `tmpTlb, `tmpPt, `firstFreeTmp, `mem, pm, pm.bitmap`unset, pm.bitmap.bytes
      ensures EntersAs(kids[i], old(pm.locked), flags, e, sub, pm.locked)
      ensures Entered(old(mem), old(pm.locked), old(tmpPt), old(FrameAt(pt)), child, i, level, kids, e, sub)
      ensures pm.Valid() && pm.Affords(after)
    {
      hide WindowOk, Tables, SameBut, NoKids, Entered;
      ghost var locked0 := pm.locked;
      var entry := LoadEntry(pt, kids, level, i);
      if !entry.present {
        child := EnterNew(pt, i, level, flags, kids, after);
        e, sub := Retag(SetPte(LeastFree(locked0), WRITE_ONLY), flags), NoKids();
      } else {
        child := EnterOld(pt, i, level, entry.frame, flags, kids);
        e, sub := Retag(kids[i].entry, flags), kids[i].kids;
      }
    }

    /**
     * A walker at `pt` has turned `kids` into `kids'`, with the new tables locked meanwhile; `m0`, `locked0` and
     * `tmp0` are memory, locked frames and window at the beginning.
     */
    ghost predicate Reshaped(m0: Memory, locked0: set<nat>, tmp0: Table, locked: set<nat>, pt: Ptr, level: nat,
                             kids: seq<Node>, kids': seq<Node>)
      requires level <= PT_LAST_LEVEL
      reads this
    {
      && tmpPt == tmp0 && Ready(pt, kids', level)
      && GrownTo(m0, locked0, mem, locked, FrameIn(tmpPt, pt), kids, kids')
    }

    ghost predicate Grown(m0: Memory, locked0: set<nat>, tmp0: Table, pt: Ptr, level: nat, kids: seq<Node>, kids': seq<Node>,
                          after: set<nat>)
      requires level <= PT_LAST_LEVEL
      reads this, pm.Repr()
    {
      Reshaped(m0, locked0, tmp0, pm.locked, pt, level, kids, kids') && Owned(pt, kids') && pm.Affords(after)
    }

    /** A walker leaves the child it had entered in state `m1`, `locked1`, `tmp1` and has turned into `sub`. */
    method LeaveChild(pt: Ptr, child: Ptr, ghost m0: Memory, ghost locked0: set<nat>, ghost tmp0: Table,
                      ghost m1: Memory, ghost locked1: set<nat>, ghost tmp1: Table, ghost locked: set<nat>, ghost i: nat,
                      ghost level: nat, ghost kids: seq<Node>, ghost e: Pte, ghost sub0: seq<Node>, ghost sub: seq<Node>)
      requires level < PT_LAST_LEVEL && i < PT_LENGTH && |kids| == PT_LENGTH
      requires Stands(m0, tmp0, pt, kids, level) && Owns(locked0, tmp0, pt, kids)
      requires Took(tmp0, tmp1, child) && UsableIn(tmp1, child) && FrameIn(tmp1, child) == e.frame
      requires Extended(m0, locked0, m1, locked1, FrameIn(tmp0, pt), i, kids[i], e, sub0)
      requires Reshaped(m1, locked1, tmp1, locked, child, level + 1, sub0, sub)
      modifies `tmpTlb, `tmpPt, `firstFreeTmp
      ensures Reshaped(m0, locked0, tmp0, locked, pt, level, kids, kids[i := Branch(e, sub)])
    {
      hide Tree, WindowOk, FreeSlots, Tables, Extended, SameBut;
      UnmapPageTmp(child);
      assert tmpPt == tmp0;
      assert locked0 <= locked1 by { ExtendedGrows(m0, locked0, m1, locked1, FrameIn(tmp0, pt), i, kids[i], e, sub0); }
      GraftExtended(m0, locked0, m1, locked1, mem, locked, Spine(), FrameIn(tmp0, pt), kids, level, i, e, sub0, sub);
    }

    /** The way back when new tables have been locked. */
    method LeaveGrown(pt: Ptr, child: Ptr, ghost m0: Memory, ghost locked0: set<nat>, ghost tmp0: Table,
                      ghost m1: Memory, ghost locked1: set<nat>, ghost tmp1: Table, ghost i: nat, ghost level: nat,
                      ghost kids: seq<Node>, ghost e: Pte, ghost sub0: seq<Node>, ghost sub: seq<Node>, ghost after: set<nat>)
      requires level < PT_LAST_LEVEL && i < PT_LENGTH && |kids| == PT_LENGTH
      requires Stands(m0, tmp0, pt, kids, level) && Owns(locked0, tmp0, pt, kids)
      requires Took(tmp0, tmp1, child) && UsableIn(tmp1, child) && FrameIn(tmp1, child) == e.frame
      requires Extended(m0, locked0, m1, locked1, FrameIn(tmp0, pt), i, kids[i], e, sub0)
      requires Grown(m1, locked1, tmp1, child, level + 1, sub0, sub, after)
      modifies `tmpTlb, `tmpPt, `firstFreeTmp
      ensures Grown(m0, locked0, tmp0, pt, level, kids, kids[i := Branch(e, sub)], after)
    {
      hide Extended, Took, SameBut, Tree, WindowOk, Tables;
      LeaveChild(pt, child, m0, locked0, tmp0, m1, locked1, tmp1, pm.locked, i, level, kids, e, sub0, sub);
    }

    /** The allocator and the counters are where `run` says. */
    ghost predicate Done(run: Run, frame: nat, pages: nat)
      reads pm
    {
      pm.locked == run.locked && frame == run.frame && pages == run.pages
    }

    lemma DoneIs(run: Run, frame: nat, pages: nat)
      ensures Done(run, frame, pages) && !run.lost <==> run == Run(pm.locked, frame, pages, false)
    {
    }

    /** The end of the loop of `recurse_map`. */
    lemma MapDone(kids: seq<Node>, level: nat, idx: seq<nat>, i: nat, run: Run, flags: Flags, kids': seq<Node>, goal: Run,
                  frame: nat, pages: nat)
      requires level <= PT_LAST_LEVEL && |idx| == 4 && (i >= |kids| || pages == 0) && run == Run(pm.locked, frame, pages, false)
      requires (kids', goal) == MapFrom(kids, level, idx, i, run, flags)
      ensures kids' == kids && Done(goal, frame, pages)
    {
      MapFromEnd(kids, level, idx, i, run, flags);
    }

    /** One step of `recurse_map` above the last level. */
    method MapBelow(pt: Ptr, i: nat, idx: seq<nat>, level: nat, frame: nat, pages: nat, flags: Flags,
                    ghost kids: seq<Node>, ghost run: Run, ghost n: Node, ghost goal: Run, ghost after: set<nat>)
      returns (res: Status, frame': nat, pages': nat)
      requires level < PT_LAST_LEVEL && i < PT_LENGTH && |idx| == 4 && pages > 0
      requires Ready(pt, kids, level) && Owned(pt, kids) && pm.Affords(after)
      requires run == Run(pm.locked, frame, pages, false)
      requires (n, goal) == MapEntry(kids[i], level, idx, run, flags) && !goal.lost && goal.locked <= after
      modifies `tmpTlb, `tmpPt, `firstFreeTmp, `mem, pm, pm.bitmap`unset, pm.bitmap.bytes
      ensures res == SUCCESS && Done(goal, frame', pages')
      ensures Grown(old(mem), run.locked, old(tmpPt), pt, level, kids, kids[i := n], after)
      decreases PT_LAST_LEVEL - level, 0
    {
      assert |kids| == PT_LENGTH;
      ghost var m0, tmp0 := mem, tmpPt;
      assert Stands(m0, tmp0, pt, kids, level) && Owns(run.locked, tmp0, pt, kids);
      MapEntryEnters(kids[i], level, idx, run, flags);
      hide *;
      ghost var e, sub0;
      var child;
      child, e, sub0 := EnterToMap(pt, i, level, flags, kids, after);
      EnteredBelow(m0, run.locked, tmp0, pt, child, i, level, kids, e, sub0);
      ghost var run1 := Run(pm.locked, frame, pages, false);
      MapEntryVia(kids[i], level, idx, run, flags, e, sub0, run1);
      res, frame', pages' := MapChild(pt, child, idx, level, frame, pages, flags, sub0, run1,
                                      MapFrom(sub0, level + 1, idx, idx[level + 1], run1, flags).0, goal, after,
                                      m0, run.locked, tmp0, i, kids, e);
    }

    /** The second half of a step of `recurse_map`: the recursion and the way back. */
    method MapChild(pt: Ptr, child: Ptr, idx: seq<nat>, level: nat, frame: nat, pages: nat, flags: Flags,
                    ghost sub0: seq<Node>, ghost run: Run, ghost sub: seq<Node>, ghost goal: Run, ghost after: set<nat>,
                    ghost m0: Memory, ghost locked0: set<nat>, ghost tmp0: Table, ghost i: nat, ghost kids: seq<Node>, ghost e: Pte)
      returns (res: Status, frame': nat, pages': nat)
      requires level < PT_LAST_LEVEL && i < PT_LENGTH && |kids| == PT_LENGTH && |idx| == 4
      requires Stands(m0, tmp0, pt, kids, level) && Owns(locked0, tmp0, pt, kids)
      requires Took(tmp0, tmpPt, child) && Ready(child, sub0, level + 1) && Owned(child, sub0)
      requires UsableIn(tmpPt, child) && FrameIn(tmpPt, child) == e.frame
      requires Extended(m0, locked0, mem, pm.locked, FrameIn(tmp0, pt), i, kids[i], e, sub0)
      requires pm.Affords(after) && run == Run(pm.locked, frame, pages, false)
      requires (sub, goal) == MapFrom(sub0, level + 1, idx, idx[level + 1], run, flags) && !goal.lost && goal.locked <= after
      modifies `tmpTlb, `tmpPt, `firstFreeTmp, `mem, pm, pm.bitmap`unset, pm.bitmap.bytes
      ensures res == SUCCESS && Done(goal, frame', pages')
      ensures Grown(m0, locked0, tmp0, pt, level, kids, kids[i := Branch(e, sub)], after)
      decreases PT_LAST_LEVEL - level - 1, 4
    {
      hide *;
      ghost var m1, tmp1 := mem, tmpPt;
      res, frame', pages' := RecurseMap(child, idx, level + 1, frame, pages, flags, sub0, run, sub, goal, after);
      LeaveGrown(pt, child, m0, locked0, tmp0, m1, run.locked, tmp1, i, level, kids, e, sub0, sub, after);
    }

    /** Writing a leaf entry. */
    method StoreLeaf(pt: Ptr, i: nat, e: Pte, ghost kids: seq<Node>, ghost after: set<nat>)
      requires i < PT_LENGTH && Ready(pt, kids, PT_LAST_LEVEL) && Owned(pt, kids) && pm.Affords(after) && e.present
      modifies `tmpTlb, `mem
      ensures Grown(old(mem), pm.locked, old(tmpPt), pt, PT_LAST_LEVEL, kids, kids[i := Leaf(e)], after)
    {
      hide Tree, Tables, LeadsTo, IsFirstFreeSlot, FreeSlots, WindowOk;
      ghost var m0 := mem;
      LeafStored(m0, tmpPt, pm.locked, pt, i, e, kids);
      Store(pt, i, e);
    }

    lemma LeafStored(m: Memory, t: Table, locked: set<nat>, pt: Ptr, i: nat, e: Pte, kids: seq<Node>)
      requires i < PT_LENGTH && Stands(m, t, pt, kids, PT_LAST_LEVEL) && Owns(locked, t, pt, kids) && FrameIn(t, pt) != tmp
      ensures FrameIn(t, pt) !in Spine() && |kids| == PT_LENGTH
      ensures var m' := m[FrameIn(t, pt) := Fetch(m, FrameIn(t, pt))[i := e]];
              var kids' := kids[i := if e.present then Leaf(e) else Hole];
              && Stands(m', t, pt, kids', PT_LAST_LEVEL) && Owns(locked, t, pt, kids')
              && GrownTo(m, locked, m', locked, FrameIn(t, pt), kids, kids')
    {
      var table := FrameIn(t, pt);
      GraftLeaf(m, m[table := Fetch(m, table)[i := e]], Spine(), table, kids, i, e);
    }

    /** One step of `recurse_map` at the last level: an absent slot is filled, a present one skipped. */
    method MapLeaf(pt: Ptr, i: nat, idx: seq<nat>, frame: nat, pages: nat, flags: Flags,
                   ghost kids: seq<Node>, ghost run: Run, ghost n: Node, ghost goal: Run, ghost after: set<nat>)
      returns (frame': nat, pages': nat)
      requires i < PT_LENGTH && |idx| == 4 && pages > 0
      requires Ready(pt, kids, PT_LAST_LEVEL) && Owned(pt, kids) && pm.Affords(after)
      requires run == Run(pm.locked, frame, pages, false) && (n, goal) == MapEntry(kids[i], PT_LAST_LEVEL, idx, run, flags)
      modifies `tmpTlb, `mem
      ensures Done(goal, frame', pages')
      ensures Grown(old(mem), run.locked, old(tmpPt), pt, PT_LAST_LEVEL, kids, kids[i := n], after)
    {
      hide Tree, Tables, WindowOk, Grown;
      frame', pages' := frame, pages;
      var e := LoadEntry(pt, kids, PT_LAST_LEVEL, i);
      if !e.present {
        StoreLeaf(pt, i, SetPte(frame, flags), kids, after);
        frame', pages' := frame + 1, pages - 1;
      } else {
        assert kids[i := n] == kids;
        GrownStart(pt, PT_LAST_LEVEL, kids, after);
      }
    }

    method MapStep(pt: Ptr, i: nat, idx: seq<nat>, level: nat, frame: nat, pages: nat, flags: Flags,
                   ghost kids: seq<Node>, ghost run: Run, ghost n: Node, ghost goal: Run, ghost after: set<nat>)
      returns (res: Status, frame': nat, pages': nat)
      requires level <= PT_LAST_LEVEL && i < PT_LENGTH && |idx| == 4 && pages > 0
      requires Ready(pt, kids, level) && Owned(pt, kids) && pm.Affords(after)
      requires run == Run(pm.locked, frame, pages, false)
      requires (n, goal) == MapEntry(kids[i], level, idx, run, flags) && !goal.lost && goal.locked <= after
      modifies `tmpTlb, `tmpPt, `firstFreeTmp, `mem, pm, pm.bitmap`unset, pm.bitmap.bytes
      ensures res == SUCCESS && Done(goal, frame', pages')
      ensures Grown(old(mem), run.locked, old(tmpPt), pt, level, kids, kids[i := n], after)
      decreases PT_LAST_LEVEL - level, 1
    {
      hide *;
      if level == PT_LAST_LEVEL {
        frame', pages' := MapLeaf(pt, i, idx, frame, pages, flags, kids, run, n, goal, after);
        res := SUCCESS;
      } else {
        res, frame', pages' := MapBelow(pt, i, idx, level, frame, pages, flags, kids, run, n, goal, after);
      }
    }

    lemma GrownParts(m0: Memory, locked0: set<nat>, tmp0: Table, pt: Ptr, level: nat, kids: seq<Node>, kids': seq<Node>, after: set<nat>)
      requires level <= PT_LAST_LEVEL && Grown(m0, locked0, tmp0, pt, level, kids, kids', after)
      ensures tmpPt == tmp0 && Ready(pt, kids', level) && Owned(pt, kids') && pm.Affords(after) && UsableIn(tmp0, pt)
      ensures GrownTo(m0, locked0, mem, pm.locked, FrameIn(tmp0, pt), kids, kids') && |kids'| == PT_LENGTH
    {
    }

    lemma GrownAgain(m0: Memory, locked0: set<nat>, m1: Memory, locked1: set<nat>, tmp0: Table, pt: Ptr, level: nat,
                     kids: seq<Node>, kids1: seq<Node>, kids2: seq<Node>, after: set<nat>)
      requires level <= PT_LAST_LEVEL && UsableIn(tmp0, pt) && GrownTo(m0, locked0, m1, locked1, FrameIn(tmp0, pt), kids, kids1)
      requires Grown(m1, locked1, tmp0, pt, level, kids1, kids2, after)
      ensures Grown(m0, locked0, tmp0, pt, level, kids, kids2, after)
    {
      GrownTrans(m0, locked0, m1, locked1, mem, pm.locked, FrameIn(tmp0, pt), kids, kids1, kids2);
    }

    lemma GrownStart(pt: Ptr, level: nat, kids: seq<Node>, after: set<nat>)
      requires level <= PT_LAST_LEVEL && Ready(pt, kids, level) && Owned(pt, kids) && pm.Affords(after)
      ensures Grown(mem, pm.locked, tmpPt, pt, level, kids, kids, after) && |kids| == PT_LENGTH
    {
      GrownSelf(mem, pm.locked, FrameAt(pt), kids);
    }

    /** One turn of the loop of `recurse_map`, from the tree `now` to the tree `next`. */
    method MapTurn(pt: Ptr, i: nat, idx: seq<nat>, level: nat, frame: nat, pages: nat, flags: Flags,
                   ghost m0: Memory, ghost locked0: set<nat>, ghost tmp0: Table, ghost kids: seq<Node>, ghost now: seq<Node>,
                   ghost kids': seq<Node>, ghost goal: Run, ghost after: set<nat>)
      returns (res: Status, frame': nat, pages': nat, ghost next: seq<Node>)
      requires level <= PT_LAST_LEVEL && i < PT_LENGTH && |idx| == 4 && pages > 0
      requires Grown(m0, locked0, tmp0, pt, level, kids, now, after) && |now| == PT_LENGTH
      requires (kids', goal) == MapFrom(now, level, idx, i, Run(pm.locked, frame, pages, false), flags) && !goal.lost && goal.locked <= after
      modifies `tmpTlb, `tmpPt, `firstFreeTmp, `mem, pm, pm.bitmap`unset, pm.bitmap.bytes
      ensures res == SUCCESS && Grown(m0, locked0, tmp0, pt, level, kids, next, after) && |next| == PT_LENGTH
      ensures (kids', goal) == MapFrom(next, level, idx, i + 1, Run(pm.locked, frame', pages', false), flags)
      decreases PT_LAST_LEVEL - level, 2
    {
      hide *;
      ghost var m1, run1 := mem, Run(pm.locked, frame, pages, false);
      GrownParts(m0, locked0, tmp0, pt, level, kids, now, after);
      MapFromStep(now, level, idx, i, run1, flags);
      ghost var step := MapEntry(now[i], level, idx, run1, flags);
      res, frame', pages' := MapStep(pt, i, idx, level, frame, pages, flags, now, run1, step.0, step.1, after);
      GrownAgain(m0, locked0, m1, run1.locked, tmp0, pt, level, kids, now, now[i := step.0], after);
      DoneIs(step.1, frame', pages');
      next := now[i := step.0];
    }

    method RecurseMap(pt: Ptr, idx: seq<nat>, level: nat, frame: nat, pages: nat, flags: Flags,
                      ghost kids: seq<Node>, ghost run: Run, ghost kids': seq<Node>, ghost goal: Run, ghost after: set<nat>)
      returns (res: Status, frame': nat, pages': nat)
      requires level <= PT_LAST_LEVEL && |idx| == 4
      requires Ready(pt, kids, level) && Owned(pt, kids) && pm.Affords(after)
      requires run == Run(pm.locked, frame, pages, false)
      requires (kids', goal) == MapFrom(kids, level, idx, idx[level], run, flags) && !goal.lost && goal.locked <= after
      modifies `tmpTlb, `tmpPt, `firstFreeTmp, `mem, pm, pm.bitmap`unset, pm.bitmap.bytes
      ensures res == SUCCESS && Done(goal, frame', pages')
      ensures Grown(old(mem), run.locked, old(tmpPt), pt, level, kids, kids', after)
      decreases PT_LAST_LEVEL - level, 3
    {
      var i := idx[level];
      hide *;
      ghost var m0, tmp0 := mem, tmpPt;
      frame', pages' := frame, pages;
      ghost var now := kids;
      GrownStart(pt, level, kids, after);
      while i < PT_LENGTH && pages' > 0
        invariant Grown(m0, run.locked, tmp0, pt, level, kids, now, after) && |now| == PT_LENGTH
        invariant (kids', goal) == MapFrom(now, level, idx, i, Run(pm.locked, frame', pages', false), flags)
        decreases PT_LENGTH - i
      {
        res, frame', pages', now := MapTurn(pt, i, idx, level, frame', pages', flags, m0, run.locked, tmp0, kids, now, kids', goal, after);
        i := i + 1;
      }
      MapDone(now, level, idx, i, Run(pm.locked, frame', pages', false), flags, kids', goal, frame', pages');
      res := SUCCESS;
    }

    // ---- The kernel's tables ---------------------------------------------------------------

    /** The tables form a tree of locked frames, the window works and has a slot for each level to descend. */
    ghost predicate Valid()
      reads this, pm.Repr()
    {
      pm.Valid() && Settled(Image(kpml4), tree, 0)
    }

    /** The tree the tables hold now. */
    ghost method Replant(kids: seq<Node>)
      requires pm.Valid() && Settled(Image(kpml4), kids, 0)
      modifies `tree
      ensures Valid() && tree == kids
    {
      hide Tree, Tables, LeadsTo, IsFirstFreeSlot;
      tree := kids;
    }

    /** After `vm_init`: if the boot tables hold a tree of locked frames, the state is valid. */
    ghost method Adopt(kids: seq<Node>)
      requires WindowOk() && AllFree(tmpPt) && pm.Valid() && tlb == map[]
      requires Tree(mem, Spine(), kpml4, kids, 0) && kpml4 != tmp && tmp !in Tables(kids)
      requires Tables(kids) + Spine() + {tmp} <= pm.locked
      modifies `tree
      ensures Valid() && tree == kids && Coherent(tree, tlb)
    {
      ManyFree(tmpPt);
      hide Tree, Tables, LeadsTo, IsFirstFreeSlot, FreeSlots, WindowOk, AllFree;
      Replant(kids);
    }

    lemma GrownSettled(m0: Memory, locked0: set<nat>, tmp0: Table, kids: seq<Node>, kids': seq<Node>, after: set<nat>)
      requires Grown(m0, locked0, tmp0, Image(kpml4), 0, kids, kids', after)
      ensures pm.Valid() && Settled(Image(kpml4), kids', 0) && pm.Affords(after)
      ensures Tables(kids') == Tables(kids) + (pm.locked - locked0)
    {
    }

    lemma ReworkedSettled(m0: Memory, tmp0: Table, kids: seq<Node>, kids': seq<Node>)
      requires Reworked(m0, tmp0, Image(kpml4), 0, kids, kids')
      ensures Settled(Image(kpml4), kids', 0) && Tables(kids') == Tables(kids)
    {
    }

    // ---- Re-flagging -----------------------------------------------------------------------

    /** Walkers that lock nothing: their tables are locked already. */
    ghost predicate Settled(p: Ptr, kids: seq<Node>, level: nat)
      requires level <= PT_LAST_LEVEL
      reads this, pm
    {
      Ready(p, kids, level) && Owns(pm.locked, tmpPt, p, kids)
    }

    ghost predicate Reworked(m0: Memory, tmp0: Table, pt: Ptr, level: nat, kids: seq<Node>, kids': seq<Node>)
      requires level <= PT_LAST_LEVEL
      reads this, pm
    {
      Reshaped(m0, pm.locked, tmp0, pm.locked, pt, level, kids, kids') && Owns(pm.locked, tmpPt, pt, kids')
    }

    lemma SettledBelow(m0: Memory, tmp0: Table, pt: Ptr, child: Ptr, i: nat, level: nat, kids: seq<Node>, e: Pte, sub: seq<Node>)
      requires level < PT_LAST_LEVEL && i < |kids| && i < PT_LENGTH && Owns(pm.locked, tmp0, pt, kids)
      requires Entered(m0, pm.locked, tmp0, FrameIn(tmp0, pt), child, i, level, kids, e, sub)
      ensures Took(tmp0, tmpPt, child) && Settled(child, sub, level + 1)
      ensures UsableIn(tmpPt, child) && FrameIn(tmpPt, child) == e.frame
      ensures Extended(m0, pm.locked, mem, pm.locked, FrameIn(tmp0, pt), i, kids[i], e, sub)
    {
      assert forall f | f in TablesOf(kids[i]) :: f in Tables(kids);
      assert TablesOf(Branch(e, sub)) <= pm.locked;
    }

    lemma ReworkedParts(m0: Memory, tmp0: Table, pt: Ptr, level: nat, kids: seq<Node>, kids': seq<Node>)
      requires level <= PT_LAST_LEVEL && Reworked(m0, tmp0, pt, level, kids, kids')
      ensures tmpPt == tmp0 && Settled(pt, kids', level) && UsableIn(tmp0, pt) && |kids'| == PT_LENGTH
      ensures GrownTo(m0, pm.locked, mem, pm.locked, FrameIn(tmp0, pt), kids, kids')
    {
    }

    lemma ReworkedAgain(m0: Memory, m1: Memory, tmp0: Table, pt: Ptr, level: nat, kids: seq<Node>, kids1: seq<Node>, kids2: seq<Node>)
      requires level <= PT_LAST_LEVEL && UsableIn(tmp0, pt) && GrownTo(m0, pm.locked, m1, pm.locked, FrameIn(tmp0, pt), kids, kids1)
      requires Reworked(m1, tmp0, pt, level, kids1, kids2)
      ensures Reworked(m0, tmp0, pt, level, kids, kids2)
    {
      GrownTrans(m0, pm.locked, m1, pm.locked, mem, pm.locked, FrameIn(tmp0, pt), kids, kids1, kids2);
    }

    lemma ReworkedStart(pt: Ptr, level: nat, kids: seq<Node>)
      requires level <= PT_LAST_LEVEL && Settled(pt, kids, level)
      ensures Reworked(mem, tmpPt, pt, level, kids, kids)
    {
      GrownSelf(mem, pm.locked, FrameAt(pt), kids);
    }

    /** Rewriting a leaf entry. */
    method StoreSettled(pt: Ptr, i: nat, e: Pte, ghost kids: seq<Node>)
      requires i < PT_LENGTH && Settled(pt, kids, PT_LAST_LEVEL)
      modifies `tmpTlb, `mem
      ensures Reworked(old(mem), old(tmpPt), pt, PT_LAST_LEVEL, kids, kids[i := if e.present then Leaf(e) else Hole])
    {
      hide Tree, Tables, LeadsTo, IsFirstFreeSlot, FreeSlots, WindowOk;
      ghost var m0 := mem;
      LeafStored(m0, tmpPt, pm.locked, pt, i, e, kids);
      Store(pt, i, e);
    }

    method LeaveReworked(pt: Ptr, child: Ptr, ghost m0: Memory, ghost tmp0: Table, ghost m1: Memory, ghost tmp1: Table,
                         ghost i: nat, ghost level: nat, ghost kids: seq<Node>, ghost e: Pte, ghost sub0: seq<Node>, ghost sub: seq<Node>)
      requires level < PT_LAST_LEVEL && i < PT_LENGTH && |kids| == PT_LENGTH
      requires Stands(m0, tmp0, pt, kids, level) && Owns(pm.locked, tmp0, pt, kids)
      requires Took(tmp0, tmp1, child) && UsableIn(tmp1, child) && FrameIn(tmp1, child) == e.frame
      requires Extended(m0, pm.locked, m1, pm.locked, FrameIn(tmp0, pt), i, kids[i], e, sub0)
      requires Reworked(m1, tmp1, child, level + 1, sub0, sub)
      modifies `tmpTlb, `tmpPt, `firstFreeTmp
      ensures Reworked(m0, tmp0, pt, level, kids, kids[i := Branch(e, sub)])
    {
      hide Extended, Took, SameBut, Tree, WindowOk, Tables;
      LeaveChild(pt, child, m0, pm.locked, tmp0, m1, pm.locked, tmp1, pm.locked, i, level, kids, e, sub0, sub);
    }

    /** One step of `recurse_flag` at the last level. */
    method FlagLeaf(pt: Ptr, i: nat, idx: seq<nat>, pages: nat, flags: Flags,
                    ghost kids: seq<Node>, ghost run: FlagRun, ghost n: Node, ghost goal: FlagRun)
      returns (res: Status, pages': nat)
      requires i < PT_LENGTH && |idx| == 4 && Settled(pt, kids, PT_LAST_LEVEL)
      requires pages > 0 && run == FlagRun(pages, false, false)
      requires (n, goal) == FlagEntry(kids[i], PT_LAST_LEVEL, idx, run, flags) && !goal.lost
      modifies `tmpTlb, `mem
      ensures res == (if goal.missing then ENOMAP else SUCCESS) && pages' == goal.pages
      ensures Reworked(old(mem), old(tmpPt), pt, PT_LAST_LEVEL, kids, kids[i := n])
    {
      hide Tree, Tables, WindowOk, Reworked;
      res, pages' := SUCCESS, pages;
      var e := LoadEntry(pt, kids, PT_LAST_LEVEL, i);
      if !e.present {
        assert kids[i := n] == kids;
        ReworkedStart(pt, PT_LAST_LEVEL, kids);
        return ENOMAP, pages;
      }
      StoreSettled(pt, i, SetPte(e.frame, flags), kids);
      pages' := pages - 1;
    }

    method FlagChild(pt: Ptr, child: Ptr, idx: seq<nat>, level: nat, pages: nat, flags: Flags,
                     ghost sub0: seq<Node>, ghost run: FlagRun, ghost sub: seq<Node>, ghost goal: FlagRun,
                     ghost m0: Memory, ghost tmp0: Table, ghost i: nat, ghost kids: seq<Node>, ghost e: Pte)
      returns (res: Status, pages': nat)
      requires level < PT_LAST_LEVEL && i < PT_LENGTH && |kids| == PT_LENGTH && |idx| == 4
      requires Stands(m0, tmp0, pt, kids, level) && Owns(pm.locked, tmp0, pt, kids)
      requires Took(tmp0, tmpPt, child) && Settled(child, sub0, level + 1)
      requires UsableIn(tmpPt, child) && FrameIn(tmpPt, child) == e.frame
      requires Extended(m0, pm.locked, mem, pm.locked, FrameIn(tmp0, pt), i, kids[i], e, sub0)
      requires pages > 0 && run == FlagRun(pages, false, false)
      requires (sub, goal) == FlagFrom(sub0, level + 1, idx, idx[level + 1], run, flags) && !goal.lost
      modifies `tmpTlb, `tmpPt, `firstFreeTmp, `mem
      ensures res == (if goal.missing then ENOMAP else SUCCESS) && pages' == goal.pages
      ensures Reworked(m0, tmp0, pt, level, kids, kids[i := Branch(e, sub)])
      decreases PT_LAST_LEVEL - level - 1, 3
    {
      hide *;
      ghost var m1, tmp1 := mem, tmpPt;
      res, pages' := RecurseFlag(child, idx, level + 1, pages, flags, sub0, run, sub, goal);
      LeaveReworked(pt, child, m0, tmp0, m1, tmp1, i, level, kids, e, sub0, sub);
    }

    /** One step of `recurse_flag` above the last level. */
    method FlagBelow(pt: Ptr, i: nat, idx: seq<nat>, level: nat, pages: nat, flags: Flags,
                     ghost kids: seq<Node>, ghost run: FlagRun, ghost n: Node, ghost goal: FlagRun)
      returns (res: Status, pages': nat)
      requires level < PT_LAST_LEVEL && i < PT_LENGTH && |idx| == 4 && Settled(pt, kids, level)
      requires pages > 0 && run == FlagRun(pages, false, false)
      requires (n, goal) == FlagEntry(kids[i], level, idx, run, flags) && !goal.lost
      modifies `tmpTlb, `tmpPt, `firstFreeTmp, `mem
      ensures res == (if goal.missing then ENOMAP else SUCCESS) && pages' == goal.pages
      ensures Reworked(old(mem), old(tmpPt), pt, level, kids, kids[i := n])
      decreases PT_LAST_LEVEL - level, 0
    {
      hide Tree, Tables, WindowOk, Reworked, FlagFrom, Entered, Extended, Took, Owns;
      ghost var m0, tmp0 := mem, tmpPt;
      var e := LoadEntry(pt, kids, level, i);
      if !e.present {
        assert kids[i := n] == kids;
        ReworkedStart(pt, level, kids);
        return ENOMAP, pages;
      }
      ghost var entry, sub0 := Retag(kids[i].entry, flags), kids[i].kids;
      var child := EnterOld(pt, i, level, e.frame, flags, kids);
      SettledBelow(m0, tmp0, pt, child, i, level, kids, entry, sub0);
      res, pages' := FlagChild(pt, child, idx, level, pages, flags, sub0, run, n.kids, goal, m0, tmp0, i, kids, entry);
    }

    method FlagStep(pt: Ptr, i: nat, idx: seq<nat>, level: nat, pages: nat, flags: Flags,
                    ghost kids: seq<Node>, ghost run: FlagRun, ghost n: Node, ghost goal: FlagRun)
      returns (res: Status, pages': nat)
      requires level <= PT_LAST_LEVEL && i < PT_LENGTH && |idx| == 4 && Settled(pt, kids, level)
      requires pages > 0 && run == FlagRun(pages, false, false)
      requires (n, goal) == FlagEntry(kids[i], level, idx, run, flags) && !goal.lost
      modifies `tmpTlb, `tmpPt, `firstFreeTmp, `mem
      ensures res == (if goal.missing then ENOMAP else SUCCESS) && pages' == goal.pages
      ensures Reworked(old(mem), old(tmpPt), pt, level, kids, kids[i := n])
      decreases PT_LAST_LEVEL - level, 1
    {
      hide *;
      if level == PT_LAST_LEVEL {
        res, pages' := FlagLeaf(pt, i, idx, pages, flags, kids, run, n, goal);
      } else {
        res, pages' := FlagBelow(pt, i, idx, level, pages, flags, kids, run, n, goal);
      }
    }

    method RecurseFlag(pt: Ptr, idx: seq<nat>, level: nat, pages: nat, flags: Flags,
                       ghost kids: seq<Node>, ghost run: FlagRun, ghost kids': seq<Node>, ghost goal: FlagRun)
      returns (res: Status, pages': nat)
      requires level <= PT_LAST_LEVEL && |idx| == 4 && Settled(pt, kids, level)
      requires run == FlagRun(pages, false, false)
      requires (kids', goal) == FlagFrom(kids, level, idx, idx[level], run, flags) && !goal.lost
      modifies `tmpTlb, `tmpPt, `firstFreeTmp, `mem
      ensures res == (if goal.missing then ENOMAP else SUCCESS) && pages' == goal.pages
      ensures Reworked(old(mem), old(tmpPt), pt, level, kids, kids')
      decreases PT_LAST_LEVEL - level, 2
    {
      var i := idx[level];
      hide *;
      ghost var m0, tmp0 := mem, tmpPt;
      pages' := pages;
      ghost var now := kids;
      ReworkedStart(pt, level, kids);
      ReworkedParts(m0, tmp0, pt, level, kids, now);
      while i < PT_LENGTH && pages' > 0
        invariant Reworked(m0, tmp0, pt, level, kids, now) && |now| == PT_LENGTH
        invariant (kids', goal) == FlagFrom(now, level, idx, i, FlagRun(pages', false, false), flags)
        decreases PT_LENGTH - i
      {
        ghost var m1, run1 := mem, FlagRun(pages', false, false);
        ReworkedParts(m0, tmp0, pt, level, kids, now);
        FlagTurn(now, level, idx, i, run1, flags, kids', goal);
        ghost var (n, run2) := FlagEntry(now[i], level, idx, run1, flags);
        ghost var next := now[i := n];
        res, pages' := FlagStep(pt, i, idx, level, pages', flags, now, run1, n, run2);
        ReworkedAgain(m0, m1, tmp0, pt, level, kids, now, next);
        now, i := next, i + 1;
        if IsError(res) {
          return;
        }
      }
      FlagFromEnd(now, level, idx, i, FlagRun(pages', false, false), flags);
      res := SUCCESS;
    }

    // ---- Backing a page --------------------------------------------------------------------

    method BackChild(pt: Ptr, child: Ptr, idx: seq<nat>, level: nat, frame: Frame, ghost sub0: seq<Node>,
                     ghost m0: Memory, ghost tmp0: Table, ghost i: nat, ghost kids: seq<Node>, ghost e: Pte)
      returns (res: Status)
      requires level < PT_LAST_LEVEL && i < PT_LENGTH && |kids| == PT_LENGTH && |idx| == 4 && IsPath(PathFrom(idx, level + 1), 3 - level)
      requires Stands(m0, tmp0, pt, kids, level) && Owns(pm.locked, tmp0, pt, kids)
      requires Took(tmp0, tmpPt, child) && Settled(child, sub0, level + 1)
      requires UsableIn(tmpPt, child) && FrameIn(tmpPt, child) == e.frame
      requires Extended(m0, pm.locked, mem, pm.locked, FrameIn(tmp0, pt), i, kids[i], e, sub0)
      requires !Lookup(sub0, PathFrom(idx, level + 1)).Outside?
      modifies `tmpTlb, `tmpPt, `firstFreeTmp, `mem
      ensures res == if Lookup(sub0, PathFrom(idx, level + 1)).Mapped? then SUCCESS else ENOMAP
      ensures Reworked(m0, tmp0, pt, level, kids, kids[i := Branch(e, Back(sub0, idx, level + 1, frame))])
      decreases PT_LAST_LEVEL - level - 1, 1
    {
      hide *;
      ghost var m1, tmp1 := mem, tmpPt;
      res := RecurseSetBacking(child, idx, level + 1, frame, sub0);
      LeaveReworked(pt, child, m0, tmp0, m1, tmp1, i, level, kids, e, sub0, Back(sub0, idx, level + 1, frame));
    }

    method RecurseSetBacking(pt: Ptr, idx: seq<nat>, level: nat, frame: Frame, ghost kids: seq<Node>) returns (res: Status)
      requires level <= PT_LAST_LEVEL && |idx| == 4 && IsPath(PathFrom(idx, level), 4 - level) && Settled(pt, kids, level)
      requires !Lookup(kids, PathFrom(idx, level)).Outside?
      modifies `tmpTlb, `tmpPt, `firstFreeTmp, `mem
      ensures res == if Lookup(kids, PathFrom(idx, level)).Mapped? then SUCCESS else ENOMAP
      ensures Reworked(old(mem), old(tmpPt), pt, level, kids, Back(kids, idx, level, frame))
      decreases PT_LAST_LEVEL - level, 0
    {
      hide Tree, Tables, WindowOk, Reworked, Entered, Extended, Took, Owns;
      var i := idx[level];
      ghost var m0, tmp0 := mem, tmpPt;
      var e := LoadEntry(pt, kids, level, i);
      if !e.present {
        ReworkedStart(pt, level, kids);
        return ENOMAP;
      } else if level == PT_LAST_LEVEL {
        StoreSettled(pt, i, e.(frame := frame), kids);
        return SUCCESS;
      }
      var child := OpenOld(pt, i, level, e.frame, kids);
      SettledBelow(m0, tmp0, pt, child, i, level, kids, kids[i].entry, kids[i].kids);
      res := BackChild(pt, child, idx, level, frame, kids[i].kids, m0, tmp0, i, kids, kids[i].entry);
    }

    // ---- Unmapping -------------------------------------------------------------------------

    method InvalidatePage(page: nat)
      requires WindowOk()
      modifies `tlb, `tmpTlb
      ensures WindowOk() && tlb == old(tlb) - {page}
    {
      tlb := tlb - {page};
      if page >= WINDOW_PAGE {
        tmpTlb := tmpTlb - {page - WINDOW_PAGE};
      }
    }

    /** The state of `recurse_unmap` in its variables. */
    ghost predicate UnmapIs(run: UnmapRun, idx: seq<nat>, page: nat, unmapped: nat, tlb0: map<nat, nat>)
      reads `tlb
    {
      run == UnmapRun(idx, page, unmapped, run.flushed, false) && tlb == Forget(tlb0, run.flushed)
    }

    method UnmapLeaf(pt: Ptr, idx: seq<nat>, unmapped: nat, page: nat, pages: nat,
                     ghost kids: seq<Node>, ghost run: UnmapRun, ghost n: Node, ghost goal: UnmapRun, ghost tlb0: map<nat, nat>)
      returns (unmapped': nat, page': nat)
      requires |idx| == 4 && idx[PT_LAST_LEVEL] < PT_LENGTH && Settled(pt, kids, PT_LAST_LEVEL) && UnmapIs(run, idx, page, unmapped, tlb0)
      requires (n, goal) == UnmapEntry(kids[idx[PT_LAST_LEVEL]], PT_LAST_LEVEL, run, pages)
      modifies `tmpTlb, `mem, `tlb
      ensures UnmapIs(goal, idx, page', unmapped', tlb0)
      ensures Reworked(old(mem), old(tmpPt), pt, PT_LAST_LEVEL, kids, kids[idx[PT_LAST_LEVEL] := n])
    {
      hide Tree, Tables, WindowOk;
      StoreSettled(pt, idx[PT_LAST_LEVEL], BLANK, kids);
      InvalidatePage(page);
      ForgetOne(tlb0, run.flushed, page);
      unmapped', page' := unmapped + 1, page + 1;
    }

    method UnmapChild(pt: Ptr, child: Ptr, idx: seq<nat>, level: nat, unmapped: nat, page: nat, pages: nat,
                      ghost sub0: seq<Node>, ghost run: UnmapRun, ghost sub: seq<Node>, ghost goal: UnmapRun, ghost tlb0: map<nat, nat>,
                      ghost m0: Memory, ghost tmp0: Table, ghost i: nat, ghost kids: seq<Node>, ghost e: Pte)
      returns (unmapped': nat, idx': seq<nat>, page': nat)
      requires level < PT_LAST_LEVEL && i < PT_LENGTH && |kids| == PT_LENGTH && |idx| == 4
      requires Stands(m0, tmp0, pt, kids, level) && Owns(pm.locked, tmp0, pt, kids)
      requires Took(tmp0, tmpPt, child) && Settled(child, sub0, level + 1)
      requires UsableIn(tmpPt, child) && FrameIn(tmpPt, child) == e.frame
      requires Extended(m0, pm.locked, mem, pm.locked, FrameIn(tmp0, pt), i, kids[i], e, sub0)
      requires UnmapIs(run, idx, page, 0, tlb0)
      requires (sub, goal) == UnmapFrom(sub0, level + 1, run, pages) && !goal.lost
      modifies `tmpTlb, `tmpPt, `firstFreeTmp, `mem, `tlb
      ensures UnmapIs(goal.(done := unmapped + goal.done), idx', page', unmapped', tlb0)
      ensures Reworked(m0, tmp0, pt, level, kids, kids[i := Branch(e, sub)])
      decreases PT_LAST_LEVEL - level - 1, 3
    {
      hide *;
      ghost var m1, tmp1 := mem, tmpPt;
      unmapped', idx', page' := RecurseUnmap(child, idx, level + 1, page, pages, sub0, run, sub, goal, tlb0);
      LeaveReworked(pt, child, m0, tmp0, m1, tmp1, i, level, kids, e, sub0, sub);
      UnmapSum(goal, idx', page', unmapped', unmapped, tlb0);
      unmapped' := unmapped + unmapped';
    }

    lemma UnmapSum(goal: UnmapRun, idx: seq<nat>, page: nat, d: nat, unmapped: nat, tlb0: map<nat, nat>)
      requires UnmapIs(goal, idx, page, d, tlb0)
      ensures UnmapIs(goal.(done := unmapped + goal.done), idx, page, unmapped + d, tlb0)
    {
    }

    /** One turn of `recurse_unmap` above the last level. */
    method UnmapBelow(pt: Ptr, idx: seq<nat>, level: nat, unmapped: nat, page: nat, pages: nat,
                      ghost kids: seq<Node>, ghost run: UnmapRun, ghost n: Node, ghost goal: UnmapRun, ghost tlb0: map<nat, nat>)
      returns (unmapped': nat, idx': seq<nat>, page': nat)
      requires level < PT_LAST_LEVEL && |idx| == 4 && idx[level] < PT_LENGTH && Settled(pt, kids, level)
      requires UnmapIs(run, idx, page, unmapped, tlb0)
      requires (n, goal) == UnmapEntry(kids[idx[level]], level, run, pages) && !goal.lost
      modifies `tmpTlb, `tmpPt, `firstFreeTmp, `mem, `tlb
      ensures UnmapIs(goal, idx', page', unmapped', tlb0)
      ensures Reworked(old(mem), old(tmpPt), pt, level, kids, kids[idx[level] := n])
      decreases PT_LAST_LEVEL - level, 0
    {
      hide Tree, Tables, WindowOk, Reworked, UnmapFrom, Entered, Extended, Took, Owns;
      ghost var m0, tmp0, i := mem, tmpPt, idx[level];
      var e := LoadEntry(pt, kids, level, idx[level]);
      if !e.present {
        assert kids[i := n] == kids;
        ReworkedStart(pt, level, kids);
        return unmapped + PagesPerEntry(level), idx, page + PagesPerEntry(level);
      }
      ghost var entry, sub0 := kids[i].entry, kids[i].kids;
      ghost var (sub, end) := UnmapFrom(sub0, level + 1, run.(done := 0), pages);
      var child := OpenOld(pt, idx[level], level, e.frame, kids);
      SettledBelow(m0, tmp0, pt, child, i, level, kids, entry, sub0);
      unmapped', idx', page' := UnmapChild(pt, child, idx, level, unmapped, page, pages, sub0, run.(done := 0), sub, end, tlb0,
                                           m0, tmp0, i, kids, entry);
    }

    method UnmapStep(pt: Ptr, idx: seq<nat>, level: nat, unmapped: nat, page: nat, pages: nat,
                     ghost kids: seq<Node>, ghost run: UnmapRun, ghost n: Node, ghost goal: UnmapRun, ghost tlb0: map<nat, nat>)
      returns (unmapped': nat, idx': seq<nat>, page': nat)
      requires level <= PT_LAST_LEVEL && |idx| == 4 && idx[level] < PT_LENGTH && Settled(pt, kids, level)
      requires UnmapIs(run, idx, page, unmapped, tlb0)
      requires (n, goal) == UnmapEntry(kids[idx[level]], level, run, pages) && !goal.lost
      modifies `tmpTlb, `tmpPt, `firstFreeTmp, `mem, `tlb
      ensures UnmapIs(goal, idx', page', unmapped', tlb0)
      ensures Reworked(old(mem), old(tmpPt), pt, level, kids, kids[idx[level] := n])
      decreases PT_LAST_LEVEL - level, 1
    {
      hide *;
      if level == PT_LAST_LEVEL {
        unmapped', page' := UnmapLeaf(pt, idx, unmapped, page, pages, kids, run, n, goal, tlb0);
        idx' := idx;
      } else {
        unmapped', idx', page' := UnmapBelow(pt, idx, level, unmapped, page, pages, kids, run, n, goal, tlb0);
      }
    }

    method RecurseUnmap(pt: Ptr, idx: seq<nat>, level: nat, page: nat, pages: nat,
                        ghost kids: seq<Node>, ghost run: UnmapRun, ghost kids': seq<Node>, ghost goal: UnmapRun, ghost tlb0: map<nat, nat>)
      returns (unmapped: nat, idx': seq<nat>, page': nat)
      requires level <= PT_LAST_LEVEL && |idx| == 4 && Settled(pt, kids, level) && UnmapIs(run, idx, page, 0, tlb0)
      requires (kids', goal) == UnmapFrom(kids, level, run, pages) && !goal.lost
      modifies `tmpTlb, `tmpPt, `firstFreeTmp, `mem, `tlb
      ensures UnmapIs(goal, idx', page', unmapped, tlb0)
      ensures Reworked(old(mem), old(tmpPt), pt, level, kids, kids')
      decreases PT_LAST_LEVEL - level, 2
    {
      hide Tree, Tables, WindowOk, Reworked, Settled, UnmapFrom, UnmapEntry, Forget;
      ghost var m0, tmp0 := mem, tmpPt;
      unmapped, idx', page' := 0, idx, page;
      ghost var now, at := kids, run;
      ReworkedStart(pt, level, kids);
      ReworkedParts(m0, tmp0, pt, level, kids, now);
      while idx'[level] < PT_LENGTH && unmapped < pages
        invariant |idx'| == 4 && Reworked(m0, tmp0, pt, level, kids, now) && |now| == PT_LENGTH
        invariant UnmapIs(at, idx', page', unmapped, tlb0) && (kids', goal) == UnmapFrom(now, level, at, pages)
        decreases PT_LENGTH - idx'[level]
      {
        ghost var m1, i := mem, idx'[level];
        ReworkedParts(m0, tmp0, pt, level, kids, now);
        UnmapTurn(now, level, at, pages);
        ghost var (n, next) := UnmapEntry(now[i], level, at, pages);
        ghost var after := now[i := n];
        unmapped, idx', page' := UnmapStep(pt, idx', level, unmapped, page', pages, now, at, n, next, tlb0);
        ReworkedAgain(m0, m1, tmp0, pt, level, kids, now, after);
        now, at := after, next;
        if unmapped >= pages {
          UnmapEnd(now, level, at, pages);
          break;
        }
        idx' := idx'[level := idx'[level] + 1];
        at := at.(idx := idx');
      }
      UnmapEnd(now, level, at, pages);
    }

    // ---- Searching -------------------------------------------------------------------------

    /** The table that pointer `p` leads to, as the processor reads it. */
    ghost function TableAt(p: Ptr): Table
      requires Usable(p)
      reads this
    {
      Fetch(Ram(), FrameAt(p))
    }

    /** The first entries from `i` on, as far as they are absent and needed. */
    method CountFree(pt: Ptr, from: nat, level: nat, frame: nat, pages: nat, flags: Flags) returns (found: nat, i: nat)
      requires WindowOk() && Usable(pt) && from < PT_LENGTH && level <= PT_LAST_LEVEL && pages > 0 && !flags.user
      requires !TableAt(pt)[from].present
      modifies `tmpTlb
      ensures WindowOk() && from < i <= PT_LENGTH
      ensures found >= pages || i == PT_LENGTH || TableAt(pt)[i].present
      ensures found == (i - from) * PagesPerEntry(level) && (i - 1 - from) * PagesPerEntry(level) < pages
      ensures forall j | from <= j < i :: !TableAt(pt)[j].present
    {
      ghost var t := TableAt(pt);
      var next := frame;
      found, i := 0, from;
      while found < pages && i < PT_LENGTH
        modifies `tmpTlb
        invariant WindowOk() && from <= i <= PT_LENGTH && TableAt(pt) == t
        invariant found == (i - from) * PagesPerEntry(level)
        invariant i > from ==> (i - 1 - from) * PagesPerEntry(level) < pages
        invariant forall j | from <= j < i :: !t[j].present
        decreases PT_LENGTH - i
      {
        var e := Load(pt, i);
        if e.present && (e.frame != next || !FlagsMatch(e, flags)) {
          break;
        }
        found := found + PagesPerEntry(level);
        next := next + 1;
        i := i + 1;
      }
    }

    /** The search below one entry. `known` says that the tables hold `kids`. */
    method SearchBelow(pt: Ptr, i: nat, idx: seq<nat>, level: nat, frame: nat, pages: nat, flags: Flags,
                       ghost known: bool, ghost kids: seq<Node>)
      returns (res: Status, idx': seq<nat>)
      requires level < PT_LAST_LEVEL && i < PT_LENGTH && |idx| == 4 && pages > 0 && !flags.user
      requires WindowOk() && Usable(pt) && PT_LAST_LEVEL - level <= |FreeSlots(tmpPt)|
      requires known ==> Stands(mem, tmpPt, pt, kids, level) && kids[i].Branch? && Inside(kids[i].kids, level + 1, idx)
      modifies `tmpTlb, `tmpPt, `firstFreeTmp
      ensures WindowOk() && tmpPt == old(tmpPt) && SearchBounds(level + 1, idx, pages, flags, res, idx')
      ensures known ==> SearchTold(kids[i].kids, level + 1, idx, pages, flags, res, idx')
      decreases PT_LAST_LEVEL - level, 0
    {
      hide Tree, Tables, SearchTold, SearchBounds, Inside, LeadsTo, IsFirstFreeSlot, Stands, WindowOk;
      if known { Descend(pt, kids, level, i); }
      ghost var tmp0 := tmpPt;
      var e := Load(pt, i);
      var child := MapPageTmp(e.frame, WRITE_ONLY);
      if known { StandsBelow(mem, tmp0, tmpPt, pt, child, kids, level, i); }
      res, idx' := FindSpace(child, idx, level + 1, frame, pages, flags, known, if known then kids[i].kids else []);
      UnmapPageTmp(child);
      assert tmpPt == tmp0;
    }

    lemma StandsBelow(m: Memory, t0: Table, t: Table, pt: Ptr, child: Ptr, kids: seq<Node>, level: nat, i: nat)
      requires level < PT_LAST_LEVEL && i < PT_LENGTH && Stands(m, t0, pt, kids, level) && kids[i].Branch?
      requires UsableIn(t, child) && FrameIn(t, child) == kids[i].entry.frame && |FreeSlots(t)| == |FreeSlots(t0)| - 1
      ensures Stands(m, t, child, kids[i].kids, level + 1)
    {
      assert Holds(m, Spine(), Fetch(m, FrameIn(t0, pt))[i], kids[i], level);
      assert forall f | f in TablesOf(kids[i]) :: f in Tables(kids);
    }

    /**
     * The first loop of `find_space`, from index `i` on. Either the whole search is decided, or the entry at the
     * index reached is absent or beyond the table.
     */
    method SkipTaken(pt: Ptr, idx: seq<nat>, level: nat, frame: nat, pages: nat, flags: Flags,
                     ghost known: bool, ghost kids: seq<Node>)
      returns (decided: bool, res: Status, idx': seq<nat>, i: nat)
      requires level <= PT_LAST_LEVEL && |idx| == 4 && pages > 0 && !flags.user
      requires WindowOk() && Usable(pt) && PT_LAST_LEVEL - level <= |FreeSlots(tmpPt)|
      requires known ==> Stands(mem, tmpPt, pt, kids, level) && Inside(kids, level, idx)
      modifies `tmpTlb, `tmpPt, `firstFreeTmp
      ensures WindowOk() && tmpPt == old(tmpPt)
      ensures decided ==> SearchBounds(level, idx, pages, flags, res, idx')
      ensures decided && known ==> SearchTold(kids, level, idx, pages, flags, res, idx')
      ensures !decided ==> |idx'| == 4 && idx'[..level] == idx[..level] && idx[level] <= i
      ensures !decided && i < PT_LENGTH ==> !TableAt(pt)[i].present
      ensures !decided && (i == idx[level] || (flags.strict && IsPath(PathFrom(idx, level), 4 - level))) ==> i == idx[level] && idx' == idx
      ensures !decided && known && (Fits(kids, level, idx, pages) || flags.strict) ==> i == idx[level]
      decreases PT_LAST_LEVEL - level, 1
    {
      hide WindowOk, Tree, Tables, Room, FreeSlots, Fetch, PagesPerEntry, Stands;
      ghost var tmp0, first := tmpPt, true;
      decided, res, idx', i := false, SUCCESS, idx, idx[level];
      while i < PT_LENGTH
        invariant WindowOk() && tmpPt == tmp0 && !decided && |idx'| == 4 && idx'[..level] == idx[..level] && idx'[level] <= i
        invariant if first then i == idx[level] && idx' == idx else i > idx[level]
        invariant (known && (Fits(kids, level, idx, pages) || flags.strict)) || (flags.strict && IsPath(PathFrom(idx, level), 4 - level)) ==> first
        decreases PT_LENGTH - i
      {
        var e := Load(pt, i);
        if !e.present {
          return;
        }
        if level == PT_LAST_LEVEL {
          if known && first { TakenLeaf(pt, kids, i, idx, pages); }
          if flags.strict {
            return true, EOVERLAP, idx', i;
          } else if FlagsMatch(e, flags) {
            return;
          }
        } else {
          if known && first { TakenBranch(pt, kids, level, idx); }
          res, idx' := SearchBelow(pt, idx'[level], idx', level, frame, pages, flags, known && first, kids);
          // a result that is not an error covers all pages, so the search goes on only after -EFULL
          if res != EFULL {
            return true, res, idx', i;
          }
        }
        i := i + 1;
        idx' := idx'[level := i];
        i := i + 1;
        first := false;
      }
    }

    lemma TakenLeaf(pt: Ptr, kids: seq<Node>, i: nat, idx: seq<nat>, pages: nat)
      requires Usable(pt) && Stands(mem, tmpPt, pt, kids, PT_LAST_LEVEL) && i < PT_LENGTH && TableAt(pt)[i].present
      requires |idx| == 4 && i == idx[PT_LAST_LEVEL] && pages > 0
      ensures !Fits(kids, PT_LAST_LEVEL, idx, pages)
    {
      TableTold(pt, kids, PT_LAST_LEVEL);
    }

    lemma TakenBranch(pt: Ptr, kids: seq<Node>, level: nat, idx: seq<nat>)
      requires level < PT_LAST_LEVEL && |idx| == 4 && Usable(pt) && Stands(mem, tmpPt, pt, kids, level) && Inside(kids, level, idx)
      requires TableAt(pt)[idx[level]].present
      ensures |kids| == PT_LENGTH && kids[idx[level]].Branch? && Inside(kids[idx[level]].kids, level + 1, idx)
    {
      assert Holds(mem, Spine(), Fetch(mem, FrameAt(pt))[idx[level]], kids[idx[level]], level);
      assert Lookup(kids, PathFrom(idx, level)) == LookupIn(kids[idx[level]], PathFrom(idx, level + 1));
    }

    /** `find_space`, for any tables and flags that are not for user mappings. */
    method FindSpace(pt: Ptr, idx: seq<nat>, level: nat, frame: nat, pages: nat, flags: Flags,
                     ghost known: bool, ghost kids: seq<Node>)
      returns (res: Status, idx': seq<nat>)
      requires level <= PT_LAST_LEVEL && |idx| == 4 && pages > 0 && !flags.user
      requires WindowOk() && Usable(pt) && PT_LAST_LEVEL - level <= |FreeSlots(tmpPt)|
      requires known ==> Stands(mem, tmpPt, pt, kids, level) && Inside(kids, level, idx)
      modifies `tmpTlb, `tmpPt, `firstFreeTmp
      ensures WindowOk() && tmpPt == old(tmpPt) && SearchBounds(level, idx, pages, flags, res, idx')
      ensures known ==> SearchTold(kids, level, idx, pages, flags, res, idx')
      decreases PT_LAST_LEVEL - level, 2
    {
      assert known ==> idx[level] < PT_LENGTH;
      hide WindowOk, Tree, Tables, Room, Fits, FreeSlots, Fetch, PagesPerEntry, Inside, Stands;
      ghost var tmp0, first := tmpPt, true;
      var i := idx[level];
      idx' := idx;
      while true
        invariant WindowOk() && tmpPt == tmp0 && |idx'| == 4 && idx'[..level] == idx[..level]
        invariant first ==> i == idx[level] && idx' == idx
        invariant flags.strict || (known && Fits(kids, level, idx, pages)) ==> first
        decreases PT_LENGTH - i
      {
        idx' := idx'[level := i];
        assert first ==> idx' == idx;
        var decided, at := false, i;
        decided, res, idx', i := SkipTaken(pt, idx', level, frame, pages, flags, known && first, kids);
        if decided {
          return;
        } else if i >= PT_LENGTH {
          return EFULL, idx';
        }
        at := i;
        var found;
        found, i := CountFree(pt, at, level, frame, pages, flags);
        if known && first && at == idx[level] {
          TableTold(pt, kids, level);
          FitsCounted(kids, level, idx, i, pages);
        }
        if found >= pages {
          return found, idx';
        } else if flags.strict {
          return EOVERLAP, idx';
        }
        first := false;
      }
    }

    /** Entries are absent in memory exactly where the tree has holes. */
    lemma TableTold(pt: Ptr, kids: seq<Node>, level: nat)
      requires level <= PT_LAST_LEVEL && Usable(pt) && Stands(mem, tmpPt, pt, kids, level)
      ensures |kids| == PT_LENGTH && forall j | 0 <= j < PT_LENGTH :: TableAt(pt)[j].present <==> !kids[j].Hole?
    {
      forall j | 0 <= j < PT_LENGTH
        ensures TableAt(pt)[j].present <==> !kids[j].Hole?
      {
        assert Holds(mem, Spine(), Fetch(mem, FrameAt(pt))[j], kids[j], level);
      }
    }
  }

  lemma GrewBy(m: Memory, m': Memory, locked: set<nat>, f: nat, table: nat, e: Pte)
    requires f !in locked && e.frame == f && SameBut(m, m', {f, table})
    ensures (locked + {f}) - locked == {f} && SameBut(m, m', {table} + {f})
    ensures TablesOf(Branch(e, NoKids())) == TablesOf(Hole) + {f}
  {
    assert Tables(NoKids()) == {} by {
      forall i | 0 <= i < PT_LENGTH ensures TablesOf(NoKids()[i]) == {} {}
    }
  }

  lemma RetagSame(m0: Memory, m: Memory, m': Memory, table: nat, extra: set<nat>, sub: seq<Node>, e: Pte, e': Pte)
    requires SameBut(m0, m, {table} + extra) && SameBut(m, m', {table}) && e'.frame == e.frame
    requires table !in Tables(sub) && table != e.frame
    ensures SameBut(m0, m', {table} + extra) && TablesOf(Branch(e', sub)) == TablesOf(Branch(e, sub))
    ensures Fetch(m', e.frame) == Fetch(m, e.frame) && forall f | f in Tables(sub) :: Fetch(m', f) == Fetch(m, f)
  {
  }

  lemma StayedAt(m: Memory, table: nat, i: nat, n: Node, locked: set<nat>)
    requires i < PT_LENGTH
    ensures Fetch(m, table) == Fetch(m, table)[i := Fetch(m, table)[i]]
    ensures locked - locked == {} && SameBut(m, m, {table} + {})
    ensures n.Branch? ==> TablesOf(Branch(n.entry, n.kids)) == TablesOf(n) + {}
  {
  }
}
