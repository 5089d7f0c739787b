/** Which slab a request is served from (`get_slab_from_size` in mm/mm.c), in machine words. */
module SlabClass {
  import opened Slab

  type Size = bv64

  /** Every bit below the highest one set is set, too. */
  function Smear(x: Size): Size {
    var b := x | (x >> 1);
    var c := b | (b >> 2);
    var d := c | (c >> 4);
    var e := d | (d >> 8);
    var f := e | (e >> 16);
    f | (f >> 32)
  }

  /** `ceil_to_power_of_2`. */
  function CeilToPowerOf2(sz: Size): Size {
    Smear(sz - 1) + 1
  }

  /** For the size `x + 1` it is the least power of two above `x`. */
  lemma LeastPower(x: Size)
    requires x < 0x8000_0000_0000_0000
    ensures var p := CeilToPowerOf2(x + 1); p & (p - 1) == 0 && p >> 1 <= x < p
  {
    OneBit(x);
    Above(x);
    HalfBelow(x);
    hide *;
  }

  lemma OneBit(x: Size)
    ensures CeilToPowerOf2(x + 1) & (CeilToPowerOf2(x + 1) - 1) == 0
  {
  }

  lemma Above(x: Size)
    requires x < 0x8000_0000_0000_0000
    ensures x < CeilToPowerOf2(x + 1)
  {
  }

  lemma HalfBelow(x: Size)
    ensures CeilToPowerOf2(x + 1) >> 1 <= x
  {
  }

  /** Only the lowest four bits of a class count. */
  lemma SizeWraps(kind: nat)
    ensures SlabSize(kind) == SlabSize(kind % 16)
  {
    hide Pow2;
    assert kind / 2 % 8 == kind % 16 / 2 % 8 && kind % 2 == kind % 16 % 2;
  }

  lemma SizeFits(kind: nat)
    ensures SlabSize(kind) <= 4096
  {
    hide SlabSize;
    SizeWraps(kind);
    SlabSizes(kind % 16);
  }

  /** The result of `slab_size`, as the word it is compared in. */
  function ClassSize(kind: nat): Size {
    SizeFits(kind);
    SlabSize(kind) as Size
  }

  lemma ClassSizes()
    ensures ClassSize(0) == 16 && ClassSize(1) == 24 && ClassSize(2) == 32 && ClassSize(3) == 48
    ensures ClassSize(4) == 64 && ClassSize(5) == 96 && ClassSize(6) == 128 && ClassSize(7) == 192
    ensures ClassSize(8) == 256 && ClassSize(9) == 384 && ClassSize(0xffff_ffff) == 4096
  {
    hide *;
    FirstSizes();
    MoreSizes();
    LastSizes();
  }

  lemma FirstSizes()
    ensures ClassSize(0) == 16 && ClassSize(1) == 24 && ClassSize(2) == 32 && ClassSize(3) == 48
  {
    SmallSizes();
    hide SlabSize, ClassSize;
    AsWord(0, 16, 16);
    AsWord(1, 24, 24);
    AsWord(2, 32, 32);
    AsWord(3, 48, 48);
  }

  lemma MoreSizes()
    ensures ClassSize(4) == 64 && ClassSize(5) == 96 && ClassSize(6) == 128 && ClassSize(7) == 192
  {
    SmallSizes();
    hide SlabSize, ClassSize;
    AsWord(4, 64, 64);
    AsWord(5, 96, 96);
    AsWord(6, 128, 128);
    AsWord(7, 192, 192);
  }

  lemma LastSizes()
    ensures ClassSize(8) == 256 && ClassSize(9) == 384 && ClassSize(0xffff_ffff) == 4096
  {
    SmallSizes();
    hide SlabSize, ClassSize;
    AsWord(8, 256, 256);
    AsWord(9, 384, 384);
    AsWord(0xffff_ffff, 4096, 4096);
  }

  lemma AsWord(kind: nat, size: nat, word: Size)
    requires SlabSize(kind) == size <= 4096 && word == size as Size
    ensures ClassSize(kind) == word
  {
  }

  lemma SmallSizes()
    ensures SlabSize(0) == 16 && SlabSize(1) == 24 && SlabSize(2) == 32 && SlabSize(3) == 48
    ensures SlabSize(4) == 64 && SlabSize(5) == 96 && SlabSize(6) == 128 && SlabSize(7) == 192
    ensures SlabSize(8) == 256 && SlabSize(9) == 384 && SlabSize(0xffff_ffff) == 4096
  {
    Powers();
    hide Pow2;
  }

  /** How often a size can be halved until nothing is left. */
  function Halvings(x: Size): nat {
    if x == 0 then 0 else 1 + Halvings(x >> 1)
  }

  lemma HalvingsOf()
    ensures Halvings(0) == 0 && Halvings(1) == 1 && Halvings(2) == 2 && Halvings(4) == 3 && Halvings(8) == 4 && Halvings(16) == 5
    ensures Halvings(32) == 6 && Halvings(64) == 7 && Halvings(128) == 8 && Halvings(256) == 9
  {
    Half(1, 0);
    Half(2, 1);
    Half(4, 2);
    Half(8, 4);
    Half(16, 8);
    Half(32, 16);
    Half(64, 32);
    Half(128, 64);
    Half(256, 128);
  }

  lemma NoHalvings()
    ensures Halvings(0) == 0
  {
  }

  lemma Half(x: Size, y: Size)
    requires x != 0 && x >> 1 == y
    ensures y < x && Halvings(x) == 1 + Halvings(y)
  {
  }

  lemma CeilIs(sz: Size)
    requires sz < 4096
    ensures CeilToPowerOf2(sz) >> 4 ==
            if sz <= 8 then 0 else if sz <= 16 then 1 else if sz <= 32 then 2 else if sz <= 64 then 4 else if sz <= 128 then 8
            else if sz <= 256 then 16 else if sz <= 512 then 32 else if sz <= 1024 then 64 else if sz <= 2048 then 128 else 256
  {
  }

  /** The class of a size before the one below it is considered: it counts one class for each power of two. */
  function Counted(sz: Size): nat {
    if sz <= 8 then 0 else if sz <= 16 then 1 else if sz <= 32 then 2 else if sz <= 64 then 3 else if sz <= 128 then 4
    else if sz <= 256 then 5 else if sz <= 512 then 6 else if sz <= 1024 then 7 else if sz <= 2048 then 8 else 9
  }

  lemma CountedIs(sz: Size)
    requires sz < 4096
    ensures Halvings(CeilToPowerOf2(sz) >> 4) == Counted(sz)
  {
    CeilIs(sz);
    HalvingsOf();
    hide Halvings, CeilToPowerOf2;
  }

  /** The loop of `get_slab_from_size`. */
  method Halve(chunkSize: Size) returns (kind: nat)
    ensures kind == Halvings(chunkSize)
  {
    kind := 0;
    var left := chunkSize;
    NoHalvings();
    hide *;
    while left != 0
      invariant kind + Halvings(left) == Halvings(chunkSize)
      decreases left
    {
      var half := left >> 1;
      Half(left, half);
      kind, left := kind + 1, half;
    }
  }

  /** The chunks of a class hold so many bytes. */
  predicate LargeEnough(kind: nat, sz: Size) {
    sz <= ClassSize(kind)
  }

  /** What is left once the class below has been considered. */
  function Chosen(sz: Size): (kind: nat)
    ensures kind < 10
  {
    if 16 < sz <= 24 then 1 else if sz <= 16 then 0 else Counted(sz)
  }

  /** The class below is taken for sizes up to 24 only, and from 49 on the chunks of the class are too small. */
  lemma ChosenIs(sz: Size)
    requires sz < 4096
    ensures sz <= 8 ==> Counted(sz) == 0 && LargeEnough(0xffff_ffff, sz)
    ensures sz > 8 ==> Counted(sz) > 0 && Chosen(sz) == if LargeEnough(Counted(sz) - 1, sz) then Counted(sz) - 1 else Counted(sz)
    ensures Chosen(sz) < 10 && (sz > 8 ==> (LargeEnough(Chosen(sz), sz) <==> sz <= 48))
  {
    ClassSizes();
    hide ClassSize;
  }

  /** Sizes that an assertion turns away. */
  predicate Refused(sz: Size) {
    sz <= 8 || sz >= 4096
  }

  /** Sizes that get a chunk large enough. */
  predicate Served(sz: Size) {
    9 <= sz <= 48
  }

  /**
   * `get_slab_from_size`, where `mm_alloc` has checked the size: an assertion stops it if and only if the size is at most 8,
   * and the chunks of the class it chooses are large enough if and only if the size is at most 48.
   */
  method GetSlabFromSize(sz: Size) returns (halted: bool, kind: nat)
    requires sz < 4096
    ensures halted <==> sz <= 8
    ensures !halted ==> kind == Chosen(sz) < 10 && (LargeEnough(kind, sz) <==> sz <= 48)
  {
    var chunkSize := CeilToPowerOf2(sz);
    CountedIs(sz);
    ChosenIs(sz);
    hide *;
    kind := Halve(chunkSize >> 4);
    // the compiler gives the enumeration an unsigned type of 32 bits, in which one below zero wraps around
    var below := if kind == 0 then 0xffff_ffff else kind - 1;
    if LargeEnough(below, sz) {
      kind := below;
    }
    halted := !(kind < 16);
  }

  /** The assertion of `mm_alloc` on the size, and the class it goes on with. */
  method ClassFor(sz: Size) returns (halted: bool, kind: nat)
    ensures halted <==> Refused(sz)
    ensures !halted ==> kind == Chosen(sz) < 10 && (LargeEnough(kind, sz) <==> Served(sz))
  {
    hide Chosen, LargeEnough;
    halted, kind := true, 0;
    if sz < 4096 {
      halted, kind := GetSlabFromSize(sz);
    }
  }
}
