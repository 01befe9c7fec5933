/** The `Fixed` type of plasma.c: an `int32_t` holding a real number scaled by
    2^16, with the FIXED_* conversion and arithmetic macros.

    The float conversions (FIXED_FROM_FLOAT, FIXED_TO_FLOAT,
    FIXED_FROM_INT_FLOAT) are not modelled; everything here is integer code. */
module FixedPoint {
  import opened Bits
  import opened Int32

  type Fixed = Int32

  const FIXED_BITS: nat := 16
  const FIXED_ONE: int := 0x1_0000
  /** `(1 << FIXED_BITS) - 1`, the mask of the fractional bits. */
  const FRAC_MASK: nat := 0xffff
  /** `~((1 << FIXED_BITS) - 1)` as a 32-bit pattern: the mask of the integer bits. */
  const TRUNC_MASK: nat := 0xffff_0000

  /** FIXED_FROM_INT: `n << FIXED_BITS`, wrapping like the 32-bit shift. */
  function FromInt(n: Int32): (x: Fixed)
    ensures x % FIXED_ONE == 0
    ensures -0x8000 <= n < 0x8000 ==> x == n * FIXED_ONE
  {
    var r := Wrap(n * FIXED_ONE);
    assert (n * FIXED_ONE - r) % TWO32 == 0;
    var k := (n * FIXED_ONE - r) / TWO32;
    DivModUnique(r, FIXED_ONE, n - k * 0x1_0000, 0);
    r
  }

  /** FIXED_TO_INT: `x >> FIXED_BITS`, the integer part rounded toward minus infinity. */
  function ToInt(x: Fixed): (n: Int32)
    ensures n * FIXED_ONE <= x < n * FIXED_ONE + FIXED_ONE
    ensures -0x8000 <= n < 0x8000
  {
    Pow2Values();
    Shr(x, FIXED_BITS)
  }

  /** FIXED_FRAC: `x & ((1 << FIXED_BITS) - 1)` on the two's complement bits of x. */
  function Frac(x: Fixed): (r: Fixed)
    ensures 0 <= r < FIXED_ONE
    ensures r == x % FIXED_ONE
  {
    Pow2Values();
    AndLowMask(U32(x), FIXED_BITS);
    ModOfMod(x, FIXED_ONE, 0x1_0000);
    And(U32(x), FRAC_MASK)
  }

  /** FIXED_TRUNC: `x & ~((1 << FIXED_BITS) - 1)`, the value with its fraction bits cleared. */
  function Trunc(x: Fixed): (r: Fixed)
    ensures r % FIXED_ONE == 0
    ensures r + Frac(x) == x
  {
    var u := U32(x);
    var v := And(u, TRUNC_MASK);
    assert v == u - x % FIXED_ONE by {
      Pow2Values();
      AndRangeMask(u, 32, FIXED_BITS);
      DivModUnique(u, TWO32, 0, u);
      ModOfMod(x, FIXED_ONE, 0x1_0000);
    }
    TruncBits(x, u, v);
    Signed(v)
  }

  /** The cleared pattern read back as a signed value is x minus its fraction. */
  lemma TruncBits(x: Fixed, u: nat, v: nat)
    requires u == U32(x) && v == u - x % FIXED_ONE
    ensures v < TWO32
    ensures Signed(v) == x - x % FIXED_ONE
    ensures (x - x % FIXED_ONE) % FIXED_ONE == 0
  {
    var q := x / FIXED_ONE;
    assert x - x % FIXED_ONE == q * FIXED_ONE;
    DivModUnique(q * FIXED_ONE, FIXED_ONE, q, 0);
  }

  /** FIXED_MUL: the product computed in 64 bits, shifted back down and stored as a Fixed. */
  function Mul(x: Fixed, y: Fixed): (r: Fixed)
    ensures INT32_MIN <= Shr(x * y, FIXED_BITS) <= INT32_MAX ==>
              r * FIXED_ONE <= x * y < r * FIXED_ONE + FIXED_ONE
  {
    Pow2Values();
    Wrap(Shr(x * y, FIXED_BITS))
  }

  /** FIXED_DIV: the dividend widened to 64 bits and scaled, divided with C's truncating `/`. */
  function Div(x: Fixed, y: Fixed): (r: Fixed)
    requires y != 0
    ensures INT32_MIN <= CDiv(x * FIXED_ONE, y) <= INT32_MAX ==>
              0 <= (x * FIXED_ONE - r * y) * (if x < 0 then -1 else 1) < Abs(y)
  {
    Wrap(CDiv(x * FIXED_ONE, y))
  }

  /** FIXED_AVERAGE: `(x + y) >> 1` with the sum computed in 32 bits: half the
      sum rounded toward minus infinity, which lies between x and y. */
  function Average(x: Fixed, y: Fixed): (r: Fixed)
    ensures INT32_MIN <= x + y <= INT32_MAX ==> 2 * r <= x + y <= 2 * r + 1
    ensures INT32_MIN <= x + y <= INT32_MAX ==>
              (if x <= y then x else y) <= r <= (if x <= y then y else x)
  {
    Pow2Values();
    Shr(Wrap(x + y), 1)
  }

  /** FIXED_DIV2: `x >> 1`, halving rounded toward minus infinity. */
  function Half(x: Fixed): (r: Fixed)
    ensures 2 * r <= x <= 2 * r + 1
  {
    Pow2Values();
    Shr(x, 1)
  }

  /** An integer of at most 16 signed bits survives the round trip through Fixed. */
  lemma ToIntFromInt(n: Int32)
    requires -0x8000 <= n < 0x8000
    ensures ToInt(FromInt(n)) == n
  {
    Pow2Values();
    DivModUnique(n * FIXED_ONE, FIXED_ONE, n, 0);
  }

  /** Going to an integer and back keeps exactly the integer bits. */
  lemma FromIntToInt(x: Fixed)
    ensures FromInt(ToInt(x)) == Trunc(x)
  {
    var n := ToInt(x);
    Pow2Values();
    DivModUnique(x, FIXED_ONE, n, x - n * FIXED_ONE);
  }

  /** Multiplying by FIXED_ONE and dividing by FIXED_ONE are identities. */
  lemma MulDivByOne(x: Fixed)
    ensures Mul(x, FIXED_ONE) == x
    ensures Div(x, FIXED_ONE) == x
  {
    Pow2Values();
    DivModUnique(x * FIXED_ONE, FIXED_ONE, x, 0);
    var q := CDiv(x * FIXED_ONE, FIXED_ONE);
    if x >= 0 {
      assert q == x;
    } else {
      assert 0 <= (x * FIXED_ONE - q * FIXED_ONE) * -1 < FIXED_ONE;
      assert (q - x) * FIXED_ONE >= 0;
      if q > x {
        MulAtLeast(q - x, FIXED_ONE);
      }
    }
  }
}
