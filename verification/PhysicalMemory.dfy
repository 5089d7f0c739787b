/** The allocator of physical frames, within its first bitmap (mm/pm.c). */
module PhysicalMemory {
  import opened Machine
  import opened Status
  import opened FrameSet
  import opened Bitmap
  import opened Paging

  /** The pages that so many bytes fill, the last one perhaps in part. */
  function PageCount(bytes: nat): nat {
    (bytes + PAGE_SIZE - 1) / PAGE_SIZE
  }

  /** They are enough, and one page less would not be. */
  lemma PagesHold(bytes: nat)
    ensures bytes <= 4096 * PageCount(bytes) < bytes + 4096
  {
  }

  function RangeLength(bytes: nat): nat {
    if bytes == 0 then 1 else PageCount(bytes)
  }

  /** Frames `from` up to but not including `to`. */
  ghost function Span(from: nat, to: nat): (s: set<nat>)
    ensures forall f: nat :: f in s <==> from <= f < to
  {
    Below(to) - Below(from)
  }

  /** 64-bit addition and subtraction wrap around. */
  function Plus(a: nat, b: nat): (r: nat)
    ensures r < WORD
  {
    (a + b) % WORD
  }

  function Minus(a: nat, b: nat): (r: nat)
    ensures r < WORD
  {
    (a - b) % WORD
  }

  lemma CountersMove(used: nat, free: nat, bytes: nat)
    ensures Plus(used + bytes, Minus(free, bytes)) == Plus(used, free)
  {
    assert (used + bytes + (free - bytes) % WORD) % WORD == (used + bytes + (free - bytes)) % WORD;
  }

  lemma CountersBack(used: nat, free: nat, bytes: nat)
    requires bytes <= used
    ensures Plus(used - bytes, Plus(free, bytes)) == Plus(used, free)
  {
    assert (used - bytes + (free + bytes) % WORD) % WORD == (used - bytes + (free + bytes)) % WORD;
  }

  /** The lowest free frame after one is given back. */
  lemma LeastFreeBack(locked: set<nat>, f: nat, index: nat)
    requires IsLeastFree(locked, f)
    ensures IsLeastFree(locked - {index}, if index in locked && index < f then index else f)
    ensures index !in locked ==> locked - {index} == locked
  {
  }

  lemma SpanGrows(from: nat, n: nat)
    ensures Span(from, from) == {}
    ensures Span(from, from + n + 1) == Span(from, from + n) + {from + n}
  {
  }

  lemma PageAfter(paddr: nat, page: nat)
    ensures (paddr + page * PAGE_SIZE) / PAGE_SIZE == paddr / PAGE_SIZE + page
  {
  }

  lemma RunLength(start: nat, num: nat)
    ensures start * PAGE_SIZE / PAGE_SIZE == start && RangeLength(num * PAGE_SIZE) == Max(num, 1)
    ensures FramesOf(start * PAGE_SIZE, num * PAGE_SIZE) == Span(start, start + Max(num, 1))
  {
  }

  /** No run of `n` free frames starts below `start`. */
  ghost predicate NoRunBelow(locked: set<nat>, size: nat, start: nat, n: nat) {
    forall t: nat | t < start :: !FreeRun(locked, size, t, n)
  }

  /** A locked frame at `index` ends every run that starts after `start` and has not yet been found. */
  lemma RunsBroken(locked: set<nat>, size: nat, start: nat, index: nat, num: nat)
    requires start <= index < start + num && index in locked
    requires NoRunBelow(locked, size, start, num)
    ensures NoRunBelow(locked, size, index + 1, num)
  {
    forall t: nat | t < index + 1
      ensures !FreeRun(locked, size, t, num)
    {
      if start <= t { assert index in Span(t, t + num); }
    }
  }

  lemma RunsGrow(locked: set<nat>, start: nat, index: nat)
    requires start <= index && Span(start, index) !! locked && index !in locked
    ensures Span(start, index + 1) !! locked
  {
  }

  /** At the end of the search some run has been found. */
  lemma RunFound(locked: set<nat>, size: nat, start: nat, index: nat, num: nat)
    requires start <= index <= size && Span(start, index) !! locked
    requires exists s: nat :: FreeRun(locked, size, s, num)
    requires NoRunBelow(locked, size, start, num)
    requires index - start >= num || index == size
    ensures FreeRun(locked, size, start, num)
  {
    assert Span(start, start) == {};
    var s: nat :| FreeRun(locked, size, s, num);
    assert Span(start, start + num) <= Span(start, index);
  }

  lemma MinusSmall(a: nat, b: nat)
    requires b <= a < WORD
    ensures Minus(a, b) == a - b
  {
  }

  /** Everything the allocator keeps in its variables. */
  datatype Books = Books(bytes: seq<bv8>, unset: nat, used: nat, free: nat, firstFree: nat)

  /** The books describe this set of locked frames and this total. */
  ghost predicate Describes(b: Books, locked: set<nat>, total: nat) {
    && BitsOf(b.bytes, 8 * |b.bytes|) == locked && b.unset == 8 * |b.bytes| - |locked|
    && b.used == PAGE_SIZE * |locked| && b.free < WORD && Plus(b.used, b.free) == total && IsLeastFree(locked, b.firstFree)
  }

  /**
   * Bitmap, counters and cursor are functions of the locked frames and the total: releasing a range that had been free
   * before it was locked restores all of them.
   */
  lemma BooksDetermined(a: Books, b: Books, locked: set<nat>, total: nat)
    requires Describes(a, locked, total) && Describes(b, locked, total) && |a.bytes| == |b.bytes|
    ensures a == b
  {
    BytesDetermined(a.bytes, b.bytes);
    LeastFreeUnique(locked, a.firstFree, b.firstFree);
    hide BitsOf, IsLeastFree;
    SameFree(a.used, a.free, b.free);
  }

  lemma SameFree(used: nat, free: nat, free': nat)
    requires free < WORD && free' < WORD && Plus(used, free) == Plus(used, free')
    ensures free == free'
  {
    var q, q' := (used + free) / WORD, (used + free') / WORD;
    assert used + free - WORD * q == used + free' - WORD * q';
  }

  // ---- Counting memory -----------------------------------------------------------------------

  datatype Segment = Segment(reserved: bool, addr: nat, length: nat)

  function TotalBytes(segments: seq<Segment>): nat {
    if segments == [] then 0 else TotalBytes(segments[..|segments| - 1]) + segments[|segments| - 1].length
  }

  ghost function FramesOf(paddr: nat, bytes: nat): set<nat> {
    Span(paddr / PAGE_SIZE, paddr / PAGE_SIZE + RangeLength(bytes))
  }

  /** Frame `f` is one of those the bytes of the range fill, counted from the frame the first byte lies in; an empty range fills that one. */
  ghost predicate Fills(paddr: nat, bytes: nat, f: nat) {
    if bytes == 0 then f == paddr / 4096 else exists b: nat :: b < bytes && f == paddr / 4096 + b / 4096
  }

  /** The frames the range fills have been added to a set, or taken from it. */
  ghost predicate Filled(before: set<nat>, after: set<nat>, paddr: nat, bytes: nat) {
    forall f: nat :: f in after <==> f in before || Fills(paddr, bytes, f)
  }

  ghost predicate Emptied(before: set<nat>, after: set<nat>, paddr: nat, bytes: nat) {
    forall f: nat :: f in after <==> f in before && !Fills(paddr, bytes, f)
  }

  lemma FilledIs(before: set<nat>, paddr: nat, bytes: nat)
    ensures Filled(before, before + FramesOf(paddr, bytes), paddr, bytes) && Emptied(before, before - FramesOf(paddr, bytes), paddr, bytes)
  {
    FramesAre(paddr, bytes);
    hide Fills, FramesOf;
  }

  lemma FramesAre(paddr: nat, bytes: nat)
    ensures forall f: nat :: f in FramesOf(paddr, bytes) <==> Fills(paddr, bytes, f)
  {
    forall f: nat
      ensures f in FramesOf(paddr, bytes) <==> Fills(paddr, bytes, f)
    {
      if bytes > 0 && f in FramesOf(paddr, bytes) {
        var b := (f - paddr / 4096) * 4096;
        assert b < bytes && f == paddr / 4096 + b / 4096;
      }
      if bytes > 0 && Fills(paddr, bytes, f) {
        var b: nat :| b < bytes && f == paddr / 4096 + b / 4096;
        LastByte(bytes, b);
      }
    }
  }

  lemma LastByte(bytes: nat, b: nat)
    requires b < bytes
    ensures b / PAGE_SIZE < PageCount(bytes)
  {
  }

  /** Every byte of the range lies in one of these frames. */
  ghost predicate CoversBytes(frames: set<nat>, paddr: nat, bytes: nat) {
    forall a: nat | paddr <= a < paddr + bytes :: a / 4096 in frames
  }

  /**
   * The range is cut into pages from its first byte on, wherever that lies in its frame: the last bytes are covered if and
   * only if no frame boundary falls between, as is the case for every range that starts at a frame boundary.
   */
  lemma CoveredIff(paddr: nat, bytes: nat)
    requires bytes > 0
    ensures CoversBytes(FramesOf(paddr, bytes), paddr, bytes) <==> (paddr % 4096 + bytes - 1) / 4096 == (bytes - 1) / 4096
    ensures paddr % 4096 == 0 ==> CoversBytes(FramesOf(paddr, bytes), paddr, bytes)
  {
    var offset, n := paddr % 4096, PageCount(bytes);
    assert n == (bytes - 1) / 4096 + 1 by { assert bytes + 4095 == (bytes - 1) + 4096; }
    forall a: nat | paddr <= a < paddr + bytes
      ensures paddr / 4096 <= a / 4096 <= paddr / 4096 + (offset + bytes - 1) / 4096
    {
      assert a == paddr / 4096 * 4096 + (offset + (a - paddr));
    }
    var last := paddr + bytes - 1;
    assert last / 4096 == paddr / 4096 + (offset + bytes - 1) / 4096 by { assert last == paddr / 4096 * 4096 + (offset + bytes - 1); }
    assert last / 4096 in FramesOf(paddr, bytes) <==> (offset + bytes - 1) / 4096 < n;
  }

  /** A range that starts at a frame boundary is covered whole. */
  ghost predicate CoversAligned(frames: set<nat>, paddr: nat, bytes: nat) {
    paddr % 4096 == 0 ==> CoversBytes(frames, paddr, bytes)
  }

  lemma Covers(frames: set<nat>, paddr: nat, bytes: nat)
    requires FramesOf(paddr, bytes) <= frames
    ensures CoversAligned(frames, paddr, bytes)
  {
    hide FramesOf;
    if bytes > 0 {
      CoveredIff(paddr, bytes);
    }
  }

  /** The frames of the reserved segments that start within the bitmap. */
  ghost function Reserved(segments: seq<Segment>, size: nat): set<nat> {
    if segments == [] then {}
    else
      var s := segments[|segments| - 1];
      Reserved(segments[..|segments| - 1], size) + if s.reserved && s.addr / PAGE_SIZE < size then FramesOf(s.addr, s.length) else {}
  }

  /** Every reserved segment that starts within the bitmap, at a frame boundary, is covered. */
  ghost predicate ReservedCovered(frames: set<nat>, segments: seq<Segment>, size: nat) {
    forall i | 0 <= i < |segments| && segments[i].reserved && segments[i].addr / 4096 < size ::
      CoversAligned(frames, segments[i].addr, segments[i].length)
  }

  lemma {:induction false} SegmentsCovered(segments: seq<Segment>, size: nat)
    ensures ReservedCovered(Reserved(segments, size), segments, size)
  {
    hide FramesOf;
    if segments != [] {
      var n := |segments| - 1;
      var init := segments[..n];
      SegmentsCovered(init, size);
      if segments[n].reserved && segments[n].addr / 4096 < size {
        Covers(Reserved(segments, size), segments[n].addr, segments[n].length);
      }
      forall i | 0 <= i < |segments| && segments[i].reserved && segments[i].addr / 4096 < size
        ensures CoversAligned(Reserved(segments, size), segments[i].addr, segments[i].length)
      {
        if i < n {
          assert init[i] == segments[i];
          assert Reserved(init, size) <= Reserved(segments, size);
          assert CoversAligned(Reserved(init, size), segments[i].addr, segments[i].length);
        }
      }
    }
  }

  function Max(a: nat, b: nat): nat {
    if a < b then b else a
  }

  lemma {:induction false} ReservedGrows(segments: seq<Segment>, n: nat, size: nat)
    requires n <= |segments|
    ensures Reserved(segments[..n], size) <= Reserved(segments, size)
    decreases |segments|
  {
    if n == |segments| {
      assert segments[..n] == segments;
    } else {
      var init := segments[..|segments| - 1];
      assert init[..n] == segments[..n];
      ReservedGrows(init, n, size);
    }
  }

  lemma OneMore(before: seq<Segment>, s: Segment, size: nat)
    ensures Reserved(before + [s], size) ==
              Reserved(before, size) + if s.reserved && s.addr / PAGE_SIZE < size then FramesOf(s.addr, s.length) else {}
    ensures TotalBytes(before + [s]) == TotalBytes(before) + s.length
  {
    hide FramesOf;
    assert (before + [s])[..|before|] == before;
  }

  lemma Nothing(size: nat)
    ensures Reserved([], size) == {} && TotalBytes([]) == 0
  {
  }

  lemma RangeFits(paddr: nat, bytes: nat, size: nat)
    requires FramesOf(paddr, bytes) <= Below(size)
    ensures paddr / PAGE_SIZE + RangeLength(bytes) <= size
  {
    assert paddr / PAGE_SIZE + RangeLength(bytes) - 1 in FramesOf(paddr, bytes);
  }

  lemma FreeLeft(used: nat, free: nat, total: nat)
    requires Plus(used, free) == total < WORD && used <= total && free < WORD
    ensures free == total - used
  {
    assert used + free == WORD * ((used + free) / WORD) + total;
    assert (used + free) / WORD < 1 by {
      if used + free >= WORD { assert used + free < WORD + total; }
    }
  }

  lemma CountersGrow(used: nat, free: nat, bytes: nat, total: nat)
    requires Plus(used, free) == total % WORD
    ensures Plus(used, Plus(free, bytes)) == (total + bytes) % WORD
  {
    assert (used + (free + bytes) % WORD) % WORD == (used + (free + bytes)) % WORD;
    assert ((used + free) % WORD + bytes) % WORD == (used + free + bytes) % WORD;
    assert (total % WORD + bytes) % WORD == (total + bytes) % WORD;
  }

  /** A run of `n` free frames starts at `s`. */
  ghost predicate FreeRun(locked: set<nat>, size: nat, s: nat, n: nat) {
    s + n <= size && Span(s, s + n) !! locked
  }

  class FrameAllocator {
    var used: nat
    var free: nat
    var firstFree: nat
    const bitmap: Bitmap
    /** The frames whose bit is set. */
    ghost var locked: set<nat>

    ghost function Repr(): set<object> {
      {this, bitmap, bitmap.bytes}
    }

    function Size(): nat {
      bitmap.size
    }

    /** Some frame outside `taken` is still free. */
    ghost predicate Spare(taken: set<nat>)
      reads `locked
    {
      exists f: nat :: f < Size() && f !in locked && f !in taken
    }

    ghost predicate Counted()
      reads Repr()
    {
      && bitmap.Valid() && locked == bitmap.Bits()
      && used == PAGE_SIZE * |locked| && free < WORD && Size() <= FRAME_LIMIT
    }

    ghost predicate Valid()
      reads Repr()
    {
      Counted() && firstFree < Size() && IsLeastFree(locked, firstFree)
    }

    ghost function Kept(): Books
      reads Repr()
    {
      Books(bitmap.bytes[..], bitmap.unset, used, free, firstFree)
    }

    /** With a bitmap of whole bytes, as the first one is, the allocator's books describe the frames it has locked. */
    lemma KeptDescribes()
      requires Valid() && Size() == 8 * bitmap.bytes.Length
      ensures Describes(Kept(), locked, Total())
    {
    }

    /** Where the locked frames and the total are what they were, everything is. */
    twostate lemma Restored()
      requires old(Valid()) && Valid() && Size() == 8 * bitmap.bytes.Length && locked == old(locked) && Total() == old(Total())
      ensures Kept() == old(Kept())
    {
      assert old(Describes(Kept(), locked, Total()));
      KeptDescribes();
      BooksDetermined(Kept(), old(Kept()), locked, Total());
    }

    /** What never changes once memory has been counted. */
    ghost function Total(): nat
      reads this
    {
      Plus(used, free)
    }

    /** `init_first_bitmap`. */
    constructor (size: nat, bytes: array<bv8>)
      requires 0 < size <= FRAME_LIMIT && size <= 8 * bytes.Length
      modifies bytes
      ensures Valid() && Size() == size && locked == {} && used == 0 && free == 0
      ensures bitmap.bytes == bytes && fresh(bitmap)
    {
      used, free, firstFree := 0, 0, 0;
      locked := {};
      bitmap := new Bitmap.From(size, bytes);
    }

    method FindFirstFreeIndex() returns (found: bool)
      requires bitmap.Valid() && locked == bitmap.Bits() && firstFree < Size()
      requires forall g: nat | g < firstFree :: g in locked
      modifies `firstFree
      ensures found <==> Spare({})
      ensures if found then firstFree < Size() && IsLeastFree(locked, firstFree) else firstFree == Size()
    {
      while true
        invariant firstFree < Size() && forall g: nat | g < firstFree :: g in locked
        decreases Size() - firstFree
      {
        var r := bitmap.Get(firstFree);
        if r == 0 {
          assert firstFree < Size() && firstFree !in locked;
          return true;
        }
        firstFree := firstFree + 1;
        if !(firstFree < Size()) {
          return false;
        }
      }
    }

    method TrySetPage(paddr: nat, state: bool) returns (done: bool)
      requires bitmap.Valid() && locked == bitmap.Bits() && paddr / PAGE_SIZE < Size()
      modifies `locked, bitmap`unset, bitmap.bytes
      ensures bitmap.Valid() && locked == bitmap.Bits()
      ensures done <==> (paddr / PAGE_SIZE in old(locked)) != state
      ensures locked == if state then old(locked) + {paddr / PAGE_SIZE} else old(locked) - {paddr / PAGE_SIZE}
    {
      var r := bitmap.Set(paddr / PAGE_SIZE, state);
      locked := bitmap.Bits();
      return r == SUCCESS;
    }

    /**
     * Frame `f` may be locked. In the middle of `pm_request_page` the cursor is one ahead: everything
     * below it is locked except the frame being requested.
     */
    ghost predicate Lockable(f: nat)
      reads Repr()
    {
      && Counted() && firstFree < Size() && f < Size() && Spare({f})
      && (forall g: nat | g < firstFree && g != f :: g in locked)
      && (f in locked ==> Valid())
    }

    lemma AnyLockable(f: nat)
      requires Valid() && f < Size() && Spare({f})
      ensures Lockable(f)
    {
    }

    /** Locks one frame and moves the cursor on. */
    method TryLockPage(paddr: nat) returns (done: bool)
      requires Lockable(paddr / PAGE_SIZE)
      modifies this, bitmap`unset, bitmap.bytes
      ensures Valid() && Total() == old(Total())
      ensures free == if done then Minus(old(free), PAGE_SIZE) else old(free)
      ensures done <==> paddr / PAGE_SIZE !in old(locked)
      ensures locked == old(locked) + {paddr / PAGE_SIZE}
    {
      hide Minus, Plus;
      done := TrySetPage(paddr, true);
      if done {
        assert Spare({}) by {
          ghost var f: nat :| f < Size() && f !in old(locked) && f !in {paddr / PAGE_SIZE};
        }
        var found := FindFirstFreeIndex();
        CountersMove(used, free, PAGE_SIZE);
        used := used + PAGE_SIZE;
        free := Minus(free, PAGE_SIZE);
      } else {
        assert locked == old(locked);
      }
    }

    /** Locks every frame of a non-empty range, and says whether all of them were free. */
    method TryLockPages(paddr: nat, bytes: nat) returns (done: bool)
      requires Valid() && paddr / PAGE_SIZE + RangeLength(bytes) <= Size() && Spare(FramesOf(paddr, bytes))
      modifies this, bitmap`unset, bitmap.bytes
      ensures Valid() && Total() == old(Total())
      ensures done <==> FramesOf(paddr, bytes) !! old(locked)
      ensures locked == old(locked) + FramesOf(paddr, bytes)
      ensures Filled(old(locked), locked, paddr, bytes)
      ensures CoversAligned(locked, paddr, bytes)
    {
      hide Plus, Minus, Span, Valid, Counted, Lockable, Total, Filled, CoversAligned;
      SpanGrows(paddr / PAGE_SIZE, 0);
      ghost var from, all := paddr / PAGE_SIZE, FramesOf(paddr, bytes);
      if bytes == 0 {
        assert all == {from};
        AnyLockable(from);
        done := TryLockPage(paddr);
        FilledIs(old(locked), paddr, bytes);
        Covers(locked, paddr, bytes);
        return;
      }
      var pages := PageCount(bytes);
      done := true;
      for page := 0 to pages
        invariant Valid() && Total() == old(Total())
        invariant locked == old(locked) + Span(from, from + page)
        invariant done <==> Span(from, from + page) !! old(locked)
      {
        PageAfter(paddr, page);
        SpanGrows(from, page);
        assert Spare({from + page}) by {
          assert from + page in all && Span(from, from + page) <= all;
          ghost var f: nat :| f < Size() && f !in old(locked) && f !in all;
        }
        AnyLockable(from + page);
        var locked1 := TryLockPage(paddr + page * PAGE_SIZE);
        done := done && locked1;
      }
      FilledIs(old(locked), paddr, bytes);
      Covers(locked, paddr, bytes);
    }

    method TryReleasePage(paddr: nat) returns (done: bool)
      requires Valid() && paddr / PAGE_SIZE < Size()
      modifies this, bitmap`unset, bitmap.bytes
      ensures Valid() && Total() == old(Total())
      ensures done <==> paddr / PAGE_SIZE in old(locked)
      ensures locked == old(locked) - {paddr / PAGE_SIZE}
    {
      hide Plus, Minus, IsLeastFree;
      LeastFreeBack(locked, firstFree, paddr / PAGE_SIZE);
      done := TrySetPage(paddr, false);
      if done {
        var index := paddr / PAGE_SIZE;
        if index < firstFree {
          firstFree := index;
        }
        assert paddr / PAGE_SIZE in old(locked) && |old(locked)| == |locked| + 1;
        CountersBack(used, free, PAGE_SIZE);
        used := used - PAGE_SIZE;
        free := Plus(free, PAGE_SIZE);
      }
    }

    /** Releases every frame of a range. The result says nothing about a non-empty range: it is always true. */
    method TryReleasePages(paddr: nat, bytes: nat) returns (done: bool)
      requires Valid() && paddr / PAGE_SIZE + RangeLength(bytes) <= Size()
      modifies this, bitmap`unset, bitmap.bytes
      ensures Valid() && Total() == old(Total())
      ensures done <==> (bytes == 0 ==> paddr / PAGE_SIZE in old(locked))
      ensures locked == old(locked) - FramesOf(paddr, bytes)
      ensures Emptied(old(locked), locked, paddr, bytes)
    {
      FilledIs(locked, paddr, bytes);
      hide Plus, Minus, Span, Valid, Counted, Lockable, Total, Filled, Emptied, CoversAligned;
      SpanGrows(paddr / PAGE_SIZE, 0);
      ghost var from := paddr / PAGE_SIZE;
      if bytes == 0 {
        assert FramesOf(paddr, bytes) == {from};
        done := TryReleasePage(paddr);
        return;
      }
      done := true;
      for page := 0 to PageCount(bytes)
        invariant Valid() && Total() == old(Total()) && done
        invariant locked == old(locked) - Span(from, from + page)
      {
        PageAfter(paddr, page);
        SpanGrows(from, page);
        var released := TryReleasePage(paddr + page * PAGE_SIZE);
        done := done || released;
      }
    }

    /** The allocator can hand out frames until `after` is locked, and one frame stays free. */
    ghost predicate Affords(after: set<nat>)
      reads this
    {
      locked <= after && Spare(after) && PAGE_SIZE * (|after| - |locked|) <= free
    }

    /** There are `n` free frames and one more. */
    ghost predicate Roomy(n: nat)
      reads this
    {
      PAGE_SIZE * n <= free && |locked| + n < Size()
    }

    lemma RoomyAffords(n: nat, after: set<nat>)
      requires Roomy(n) && locked <= after && |after| <= |locked| + n
      ensures Affords(after)
    {
      if !Spare(after) {
        assert Below(Size()) <= after;
        SubsetSize(Below(Size()), after);
        assert false;
      }
    }

    /** The lowest free frame; its assertion that the frame could be locked never fails. */
    method RequestPage() returns (paddr: nat)
      requires Valid() && PAGE_SIZE <= free && Spare({firstFree})
      modifies this, bitmap`unset, bitmap.bytes
      ensures Valid() && Total() == old(Total()) && free == old(free) - PAGE_SIZE
      ensures paddr == PAGE_SIZE * LeastFree(old(locked))
      ensures locked == old(locked) + {LeastFree(old(locked))}
    {
      LeastFreeUnique(locked, firstFree, LeastFree(locked));
      MinusSmall(free, PAGE_SIZE);
      hide Minus, Plus;
      paddr := firstFree * PAGE_SIZE;
      assert paddr / PAGE_SIZE == firstFree;
      firstFree := firstFree + 1;
      var ok := TryLockPage(paddr);
      assert ok;
    }

    /** A request on the way to `after`. */
    method RequestWithin(ghost after: set<nat>) returns (paddr: nat)
      requires Valid() && Affords(after) && LeastFree(locked) in after
      modifies this, bitmap`unset, bitmap.bytes
      ensures Valid() && Affords(after) && Total() == old(Total())
      ensures paddr == PAGE_SIZE * LeastFree(old(locked)) && LeastFree(old(locked)) < Size()
      ensures locked == old(locked) + {LeastFree(old(locked))}
    {
      ghost var f := LeastFree(locked);
      LeastFreeUnique(locked, firstFree, f);
      SubsetSize(locked + {f}, after);
      paddr := RequestPage();
    }

    /** The search of `pm_request_pages`, from the cursor on. */
    method FindRun(num: nat) returns (start: nat)
      requires Valid() && exists s: nat :: FreeRun(locked, Size(), s, Max(num, 1))
      ensures Valid() && FreeRun(locked, Size(), start, Max(num, 1)) && NoRunBelow(locked, Size(), start, Max(num, 1))
    {
      hide Span, IsLeastFree, NoRunBelow, FreeRun;
      Opened();
      CursorBeforeRuns(Max(num, 1));
      start := firstFree;
      var index: nat, found: nat := firstFree, 0;
      while found < num && index < Size()
        invariant start <= index <= Size() && found == index - start && found <= num
        invariant Span(start, index) !! locked && NoRunBelow(locked, Size(), start, Max(num, 1))
        invariant num == 0 ==> start == firstFree
        decreases Size() - index
      {
        var r := bitmap.Get(index);
        if r == 0 {
          RunsGrow(locked, start, index);
          found := found + 1;
        } else {
          RunsBroken(locked, Size(), start, index, num);
          start := index + 1;
          found := 0;
          SpanGrows(start, 0);
        }
        index := index + 1;
      }
      if num > 0 {
        RunFound(locked, Size(), start, index, num);
      }
    }

    /** The lowest run of `num` consecutive free frames, locked as a whole; a request for none is served as one for a frame. */
    method RequestPages(num: nat) returns (paddr: nat)
      requires Valid() && PAGE_SIZE * num <= free
      requires exists s: nat :: FreeRun(locked, Size(), s, Max(num, 1))
      requires forall s: nat | FreeRun(locked, Size(), s, Max(num, 1)) :: Spare(Span(s, s + Max(num, 1)))
      modifies this, bitmap`unset, bitmap.bytes
      ensures Valid() && Total() == old(Total())
      ensures var s, n := paddr / PAGE_SIZE, Max(num, 1);
              && paddr == PAGE_SIZE * s && FreeRun(old(locked), Size(), s, n) && NoRunBelow(old(locked), Size(), s, n)
              && locked == old(locked) + Span(s, s + n)
    {
      hide Span, Valid, Counted, IsLeastFree, NoRunBelow, Total, RangeLength, FramesOf;
      var start := FindRun(num);
      RunLength(start, num);
      paddr := start * PAGE_SIZE;
      var ok := TryLockPages(paddr, num * PAGE_SIZE);
      assert ok;
    }

    lemma Opened()
      requires Valid()
      ensures bitmap.Valid() && locked == bitmap.Bits() && firstFree < Size()
    {
    }

    lemma FreeBytes(total: nat)
      requires Valid() && Total() == total < WORD && PAGE_SIZE * |locked| <= total
      ensures free == total - PAGE_SIZE * |locked| && firstFree == LeastFree(locked)
    {
      FreeLeft(used, free, total);
      LeastFreeUnique(locked, firstFree, LeastFree(locked));
    }

    lemma CursorBeforeRuns(n: nat)
      requires Valid() && n > 0
      ensures NoRunBelow(locked, Size(), firstFree, n) && FreeRun(locked, Size(), firstFree, 1) && Span(firstFree, firstFree) == {}
    {
      forall t: nat | t < firstFree ensures !FreeRun(locked, Size(), t, n) { assert t in Span(t, t + n); }
    }

    /** `compute_mem_size`: counts all segments and locks the reserved ones that start within the bitmap. */
    method ComputeMemSize(segments: seq<Segment>)
      requires Valid() && locked == {} && Reserved(segments, Size()) <= Below(Size()) && Spare(Reserved(segments, Size()))
      modifies this, bitmap`unset, bitmap.bytes
      ensures Valid() && locked == Reserved(segments, Size()) && Total() == TotalBytes(segments) % WORD
      ensures ReservedCovered(locked, segments, Size())
    {
      SegmentsCovered(segments, Size());
      hide CoversAligned, Filled, ReservedCovered, Plus, Minus, Span, RangeLength, Valid, Counted, Total, Reserved, TotalBytes, Spare;
      Nothing(Size());
      Outside(Reserved(segments, Size()));
      ResetCounters();
      for i := 0 to |segments|
        invariant Valid() && locked == Reserved(segments[..i], Size()) && Total() == TotalBytes(segments[..i]) % WORD
      {
        assert segments[..i + 1] == segments[..i] + [segments[i]];
        ReservedGrows(segments, i, Size());
        ReservedGrows(segments, i + 1, Size());
        SpareOutside(Reserved(segments, Size()));
        SpareBelow(Reserved(segments, Size()), Reserved(segments[..i + 1], Size()));
        CountSegment(segments[i], segments[..i]);
      }
      assert segments[..|segments|] == segments;
    }

    lemma Outside(all: set<nat>)
      requires Spare(all)
      ensures exists f: nat :: f < Size() && f !in all
    {
    }

    lemma SpareOutside(all: set<nat>)
      requires (exists f: nat :: f < Size() && f !in all) && locked <= all
      ensures Spare(all)
    {
    }

    lemma SpareBelow(all: set<nat>, some: set<nat>)
      requires Spare(all) && some <= all
      ensures Spare(some)
    {
    }

    /** One turn of its loop. */
    method CountSegment(s: Segment, ghost before: seq<Segment>)
      requires Valid() && locked == Reserved(before, Size()) && Total() == TotalBytes(before) % WORD
      requires Reserved(before + [s], Size()) <= Below(Size()) && Spare(Reserved(before + [s], Size()))
      modifies this, bitmap`unset, bitmap.bytes
      ensures Valid() && locked == Reserved(before + [s], Size()) && Total() == TotalBytes(before + [s]) % WORD
    {
      OneMore(before, s, Size());
      hide Plus, Minus, Span, RangeLength, Valid, Counted, Total, FramesOf, Reserved, TotalBytes, Below, Spare;
      AddSegment(s.length, TotalBytes(before));
      if s.reserved && s.addr / PAGE_SIZE < Size() {
        RangeFits(s.addr, s.length, Size());
        SpareBelow(Reserved(before + [s], Size()), FramesOf(s.addr, s.length));
        var ok := TryLockPages(s.addr, s.length);
      }
    }

    method ResetCounters()
      requires Valid() && locked == {}
      modifies `used, `free
      ensures Valid() && Total() == 0
    {
      used, free := 0, 0;
    }

    method AddSegment(bytes: nat, ghost total: nat)
      requires Valid() && Total() == total % WORD
      modifies `free
      ensures Valid() && Total() == (total + bytes) % WORD
    {
      CountersGrow(used, free, bytes, total);
      hide Plus;
      free := Plus(free, bytes);
    }

    /** `pm_init`: reserved memory and the kernel image are locked, and one page is set aside for the next bitmap. */
    method Init(segments: seq<Segment>, kernelStart: nat, kernelEnd: nat) returns (nextBitmapPage: nat)
      requires Valid() && locked == {} && kernelStart <= kernelEnd
      requires var taken := Reserved(segments, Size()) + FramesOf(kernelStart, kernelEnd - kernelStart);
               taken <= Below(Size()) && Spare(taken) && Spare(taken + {LeastFree(taken)})
               && PAGE_SIZE * |taken| + PAGE_SIZE <= TotalBytes(segments) < WORD
      modifies this, bitmap`unset, bitmap.bytes
      ensures var taken := Reserved(segments, Size()) + FramesOf(kernelStart, kernelEnd - kernelStart);
              && nextBitmapPage == PAGE_SIZE * LeastFree(taken) && locked == taken + {LeastFree(taken)}
      ensures Valid() && Total() == TotalBytes(segments)
      ensures CoversAligned(locked, kernelStart, kernelEnd - kernelStart)
    {
      hide CoversAligned, Filled, ReservedCovered, Span, RangeLength, Plus, Minus, Reserved, TotalBytes, Valid, Counted, Total;
      ComputeMemSize(segments);
      ghost var all := FramesOf(kernelStart, kernelEnd - kernelStart);
      RangeFits(kernelStart, kernelEnd - kernelStart, Size());
      var ok := TryLockPages(kernelStart, kernelEnd - kernelStart);
      FreeBytes(TotalBytes(segments));
      nextBitmapPage := RequestPage();
      Covers(locked, kernelStart, kernelEnd - kernelStart);
    }
  }
}
