/** The packed bitmap: bits in a byte array with a count of the clear ones. */
module Bitmap {
  import opened Status
  import opened FrameSet

  function Bit(byte: bv8, k: bv3): bool {
    (byte >> k) & 1 == 1
  }

  /** Both branches of the write: `|= mask` and `&= ~mask`. */
  function WithBit(byte: bv8, k: bv3, v: bool): bv8 {
    if v then byte | (1 << k) else byte & !(1 << k)
  }

  lemma BitWritten(byte: bv8, k: bv3, j: bv3, v: bool)
    ensures Bit(WithBit(byte, k, v), j) == if j == k then v else Bit(byte, j)
  {
  }

  lemma BlankByte(k: bv3)
    ensures !Bit(0, k)
  {
  }

  /** The place of an index within its byte, `i & 7`. */
  function Low(i: nat): bv3 {
    (i % 8) as bv3
  }

  lemma SamePlace(i: nat, j: nat)
    requires i / 8 == j / 8 && Low(i) == Low(j)
    ensures i == j
  {
    assert Low(i) as nat == i % 8;
    assert Low(j) as nat == j % 8;
  }

  function IsSet(s: seq<bv8>, i: nat): bool
    requires i < 8 * |s|
  {
    Bit(s[i / 8], Low(i))
  }

  /** The indices of the set bits among the first `size`. */
  ghost function BitsOf(s: seq<bv8>, size: nat): (r: set<nat>)
    requires size <= 8 * |s|
    ensures forall i: nat :: i in r <==> i < size && IsSet(s, i)
  {
    set i: nat | i < size && IsSet(s, i)
  }

  /** Writing one bit of one byte changes the set of bits by that index alone. */
  lemma BitsWritten(s: seq<bv8>, size: nat, i: nat, v: bool)
    requires i < size <= 8 * |s|
    ensures var s' := s[i / 8 := WithBit(s[i / 8], Low(i), v)];
            BitsOf(s', size) == if v then BitsOf(s, size) + {i} else BitsOf(s, size) - {i}
  {
    hide Bit, Low, WithBit;
    var s' := s[i / 8 := WithBit(s[i / 8], Low(i), v)];
    forall j: nat | j < size
      ensures IsSet(s', j) == if j == i then v else IsSet(s, j)
    {
      BitWritten(s[i / 8], Low(i), Low(j), v);
      if i / 8 == j / 8 && Low(i) == Low(j) { SamePlace(i, j); }
    }
  }

  lemma BitsBound(s: seq<bv8>, size: nat, i: nat)
    requires i < size <= 8 * |s| && !IsSet(s, i)
    ensures |BitsOf(s, size)| < size
  {
    assert i in Below(size) && BitsOf(s, size) <= Below(size);
    SetSmaller(BitsOf(s, size), Below(size));
  }

  lemma ByteIs(a: bv8, b: bv8)
    requires forall k: bv3 :: Bit(a, k) == Bit(b, k)
    ensures a == b
  {
    assert Bit(a, 0) == Bit(b, 0) && Bit(a, 1) == Bit(b, 1) && Bit(a, 2) == Bit(b, 2) && Bit(a, 3) == Bit(b, 3);
    assert Bit(a, 4) == Bit(b, 4) && Bit(a, 5) == Bit(b, 5) && Bit(a, 6) == Bit(b, 6) && Bit(a, 7) == Bit(b, 7);
  }

  /** The set of bits determines the bytes that pack it. */
  lemma BytesDetermined(s: seq<bv8>, s': seq<bv8>)
    requires |s| == |s'| && BitsOf(s, 8 * |s|) == BitsOf(s', 8 * |s|)
    ensures s == s'
  {
    forall j | 0 <= j < |s|
      ensures s[j] == s'[j]
    {
      forall k: bv3
        ensures Bit(s[j], k) == Bit(s'[j], k)
      {
        BitPlace(s, j, k);
        BitPlace(s', j, k);
        assert 8 * j + k as nat in BitsOf(s, 8 * |s|) <==> 8 * j + k as nat in BitsOf(s', 8 * |s|);
      }
      ByteIs(s[j], s'[j]);
    }
  }

  lemma BitPlace(s: seq<bv8>, j: nat, k: bv3)
    requires j < |s|
    ensures k as nat < 8 && 8 * j + k as nat < 8 * |s| && IsSet(s, 8 * j + k as nat) == Bit(s[j], k)
  {
    var i := 8 * j + k as nat;
    assert i / 8 == j && i % 8 == k as nat;
    assert Low(i) == k;
  }

  class Bitmap {
    const size: nat
    const bytes: array<bv8>
    var unset: nat

    ghost function Bits(): set<nat>
      requires size <= 8 * bytes.Length
      reads bytes
    {
      BitsOf(bytes[..], size)
    }

    ghost predicate Valid()
      reads this, bytes
    {
      size <= 8 * bytes.Length && unset == size - |Bits()|
    }

    /** `bitmap_from`: the caller's bytes, cleared. */
    constructor From(size: nat, bytes: array<bv8>)
      requires size <= 8 * bytes.Length
      modifies bytes
      ensures Valid() && this.size == size && this.bytes == bytes && Bits() == {}
    {
      this.size := size;
      this.bytes := bytes;
      this.unset := size;
      new;
      var n := (size + 7) / 8;
      for k := 0 to n
        invariant this.unset == size
        invariant forall j | 0 <= j < k :: bytes[j] == 0
      {
        bytes[k] := 0;
      }
      forall i: nat | i < size
        ensures !IsSet(bytes[..], i)
      {
        BlankByte(Low(i));
      }
      assert Bits() == {};
    }

    method Get(i: nat) returns (r: Status)
      requires Valid()
      ensures r == if i >= size then EINVAL else if i in Bits() then 1 else 0
    {
      if i >= size {
        return EINVAL;
      }
      return if Bit(bytes[i / 8], Low(i)) then 1 else 0;
    }

    /** Sets or clears one bit; tells a change from a repetition. */
    method Set(i: nat, v: bool) returns (r: Status)
      requires Valid()
      modifies `unset, bytes
      ensures Valid()
      ensures r == if i >= size then EINVAL else if (i in old(Bits())) == v then SNOCHANGE else SUCCESS
      ensures Bits() == if i >= size then old(Bits()) else if v then old(Bits()) + {i} else old(Bits()) - {i}
    {
      if i >= size {
        return EINVAL;
      }
      if Bit(bytes[i / 8], Low(i)) == v {
        return SNOCHANGE;
      }
      hide Bit, Low, WithBit;
      BitsWritten(bytes[..], size, i, v);
      ghost var s := bytes[..];
      if v {
        BitsBound(s, size, i);
        unset := unset - 1;
      } else {
        unset := unset + 1;
      }
      bytes[i / 8] := WithBit(bytes[i / 8], Low(i), v);
      assert bytes[..] == s[i / 8 := WithBit(s[i / 8], Low(i), v)];
      return SUCCESS;
    }
  }
}
