/** Machine words and rounding. */
module Machine {
  /** Arithmetic on addresses and sizes is modulo this. */
  const WORD: nat := 0x1_0000_0000_0000_0000

  /** The least multiple of `align` that is not below `a`. */
  function RoundUp(a: nat, align: nat): (r: nat)
    requires align > 0
    ensures a <= r < a + align
  {
    assert a + align - 1 == (a + align - 1) / align * align + (a + align - 1) % align;
    (a + align - 1) / align * align
  }
}
