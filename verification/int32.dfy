/** The 32-bit two's complement integers the plasma code computes with.

    `Fixed` and `Angle` are both `int32_t` in the source. Signed overflow is
    modelled as the two's complement wrap-around the target compilers
    produce, a cast to `uint32_t` as reduction modulo 2^32, and `>>` on a
    signed value as an arithmetic shift (rounding toward minus infinity). */
module Int32 {
  import opened Bits

  const INT32_MIN: int := -0x8000_0000
  const INT32_MAX: int := 0x7fff_ffff
  const TWO32: int := 0x1_0000_0000

  type Int32 = x: int | INT32_MIN <= x <= INT32_MAX

  /** Two's complement truncation of a mathematical integer to 32 bits. */
  function Wrap(x: int): (r: Int32)
    ensures (x - r) % TWO32 == 0
    ensures INT32_MIN <= x <= INT32_MAX ==> r == x
  {
    var u := (x - INT32_MIN) % TWO32;
    DivModUnique(x - INT32_MIN, TWO32, (x - INT32_MIN) / TWO32, u);
    u + INT32_MIN
  }

  /** `(uint32_t)x`: the same 32 bits read as an unsigned number. */
  function U32(x: Int32): (u: nat)
    ensures u < TWO32
    ensures u == x % TWO32
  {
    if x < 0 then
      DivModUnique(x, TWO32, -1, x + TWO32);
      x + TWO32
    else
      DivModUnique(x, TWO32, 0, x);
      x
  }

  /** A 32-bit unsigned pattern read back as a signed `int32_t`. */
  function Signed(u: nat): (r: Int32)
    requires u < TWO32
    ensures U32(r) == u
  {
    if u <= INT32_MAX then u else u - TWO32
  }

  /** Absolute value on mathematical integers. */
  function Abs(x: int): nat
  {
    if x < 0 then -x else x
  }

  /** `x >> k` on a signed value: an arithmetic shift, i.e. division rounded down. */
  function Shr(x: int, k: nat): (r: int)
    ensures r * Pow2(k) <= x < r * Pow2(k) + Pow2(k)
  {
    x / Pow2(k)
  }

  /** C's `/`: division truncated toward zero (unlike Dafny's Euclidean `/`). */
  function CDiv(a: int, b: int): (q: int)
    requires b != 0
    ensures a >= 0 && b > 0 ==> q == a / b
    ensures 0 <= (a - q * b) * (if a < 0 then -1 else 1) < Abs(b)
  {
    var m := Abs(a) / Abs(b);
    CDivFacts(a, b, m);
    if (a < 0) == (b < 0) then m else -m
  }

  lemma CDivFacts(a: int, b: int, m: int)
    requires b != 0
    requires m == Abs(a) / Abs(b)
    ensures var q := if (a < 0) == (b < 0) then m else -m;
            0 <= (a - q * b) * (if a < 0 then -1 else 1) < Abs(b)
  {
    var aa, bb := Abs(a), Abs(b);
    var r := aa % bb;
    assert aa == m * bb + r;
    var q := if (a < 0) == (b < 0) then m else -m;
    if a < 0 && b < 0 {
      assert a - q * b == -(aa - m * bb);
    } else if a < 0 {
      assert q * b == -(m * bb);
      assert a - q * b == -(aa - m * bb);
    } else if b < 0 {
      assert q * b == m * bb;
    }
  }

  /** Values that agree modulo 2^32 wrap to the same 32-bit value. */
  lemma WrapCongruent(x: int, y: int)
    requires (x - y) % TWO32 == 0
    ensures Wrap(x) == Wrap(y)
  {
    var k := (x - y) / TWO32;
    assert x - y == k * TWO32;
    var q := (y - INT32_MIN) / TWO32;
    var r := (y - INT32_MIN) % TWO32;
    DivModUnique(x - INT32_MIN, TWO32, q + k, r);
  }

  /** Accumulating into a 32-bit variable: wrapping after every step is wrapping once. */
  lemma WrapAdd(a: int, b: int)
    ensures Wrap(Wrap(a) + b) == Wrap(a + b)
  {
    var k := (a - Wrap(a)) / TWO32;
    assert a - Wrap(a) == k * TWO32;
    assert (a + b) - (Wrap(a) + b) == k * TWO32;
    DivModUnique((a + b) - (Wrap(a) + b), TWO32, k, 0);
    WrapCongruent(Wrap(a) + b, a + b);
  }
}
