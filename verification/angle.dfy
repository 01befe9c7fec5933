/** Angles and the sine lookup table of plasma.c.

    An `Angle` is an `int32_t` in which one full turn is ANGLE_2PI = 2^9 steps;
    `angle_sin` reduces an angle to its low nine bits and reads the table.
    `fixed_sin`/`fixed_cos` take a Fixed whose whole unit is one full turn
    (not one radian) and rescale it to an Angle by shifting out seven bits. */
module Angles {
  import opened Bits
  import opened Int32
  import opened FixedPoint

  type Angle = Int32

  const ANGLE_BITS: nat := 9
  const ANGLE_2PI: int := 0x200
  const ANGLE_PI: int := 0x100
  const ANGLE_PI2: int := 0x80
  const ANGLE_PI4: int := 0x40

  /** Fixed units per angle step: `1 << (FIXED_BITS - ANGLE_BITS)`. */
  const ANGLE_STEP: int := 0x80

  /** `angle_sin_tab` as init_angles leaves it: ANGLE_2PI + 1 samples over one
      closed turn, each a Fixed in [-1, 1]. The values themselves come from the
      C library's sin() and are a parameter of the model. */
  predicate SineTable(tab: seq<int>)
  {
    && |tab| == ANGLE_2PI + 1
    && forall i :: 0 <= i < |tab| ==> -FIXED_ONE <= tab[i] <= FIXED_ONE
  }

  /** ANGLE_FROM_FIXED: `x >> (FIXED_BITS - ANGLE_BITS)`, rounding down. */
  function FromFixed(x: Fixed): (a: Angle)
    ensures a * ANGLE_STEP <= x < a * ANGLE_STEP + ANGLE_STEP
  {
    Pow2Values();
    Shr(x, FIXED_BITS - ANGLE_BITS)
  }

  /** ANGLE_TO_FIXED: `a << (FIXED_BITS - ANGLE_BITS)` stored as a Fixed. */
  function ToFixed(a: Angle): (x: Fixed)
    ensures -0x100_0000 <= a < 0x100_0000 ==> x % ANGLE_STEP == 0 && FromFixed(x) == a
  {
    var x := Wrap(a * ANGLE_STEP);
    if -0x100_0000 <= a < 0x100_0000 then
      DivModUnique(x, ANGLE_STEP, a, 0);
      x
    else
      x
  }

  /** The slot angle_sin reads: `(uint32_t)a & (ANGLE_2PI - 1)`. */
  function SinIndex(a: Angle): (i: nat)
    ensures i < ANGLE_2PI
    ensures i == a % ANGLE_2PI
  {
    Pow2Values();
    AndLowMask(U32(a), ANGLE_BITS);
    ModOfMod(a, ANGLE_2PI, 0x80_0000);
    And(U32(a), ANGLE_2PI - 1)
  }

  /** angle_sin: the table entry of the angle's position within its turn. */
  function AngleSin(tab: seq<int>, a: Angle): (r: Fixed)
    requires SineTable(tab)
    ensures r == tab[a % ANGLE_2PI]
  {
    tab[SinIndex(a)]
  }

  /** angle_cos: the sine a quarter turn later, the addition wrapping in 32 bits. */
  function AngleCos(tab: seq<int>, a: Angle): (r: Fixed)
    requires SineTable(tab)
    ensures r == tab[(a + ANGLE_PI2) % ANGLE_2PI]
  {
    var b := Wrap(a + ANGLE_PI2);
    ModOfMultipleDiff(b, a + ANGLE_PI2, ANGLE_2PI, 0x80_0000);
    AngleSin(tab, b)
  }

  /** fixed_sin: the entry at the Fixed's fractional part, in steps of ANGLE_STEP. */
  function FixedSin(tab: seq<int>, f: Fixed): (r: Fixed)
    requires SineTable(tab)
    ensures r == tab[(f % FIXED_ONE) / ANGLE_STEP]
  {
    DivOfMod(f, ANGLE_STEP, ANGLE_2PI);
    AngleSin(tab, FromFixed(f))
  }

  /** fixed_cos: angle_cos of the rescaled angle. */
  function FixedCos(tab: seq<int>, f: Fixed): (r: Fixed)
    requires SineTable(tab)
    ensures r == tab[((f % FIXED_ONE) / ANGLE_STEP + ANGLE_PI2) % ANGLE_2PI]
  {
    var a := FromFixed(f);
    CosIndex(f, a);
    AngleCos(tab, a)
  }

  /** The slot fixed_cos reads, computed from the rescaled angle or from the fraction. */
  lemma CosIndex(f: int, a: int)
    requires a * ANGLE_STEP <= f < a * ANGLE_STEP + ANGLE_STEP
    ensures (a + ANGLE_PI2) % ANGLE_2PI == ((f % FIXED_ONE) / ANGLE_STEP + ANGLE_PI2) % ANGLE_2PI
  {
    DivModUnique(f, ANGLE_STEP, a, f - a * ANGLE_STEP);
    DivOfMod(f, ANGLE_STEP, ANGLE_2PI);
    var q := a / ANGLE_2PI;
    DivModUnique(a, ANGLE_2PI, q, a % ANGLE_2PI);
    assert (a + ANGLE_PI2) - (a % ANGLE_2PI + ANGLE_PI2) == q * ANGLE_2PI;
    DivModUnique(q * ANGLE_2PI, ANGLE_2PI, q, 0);
    ModOfMultipleDiff(a + ANGLE_PI2, a % ANGLE_2PI + ANGLE_PI2, ANGLE_2PI, 1);
  }

  /** angle_sin has period one turn, for negative angles as well. */
  lemma AngleSinPeriodic(tab: seq<int>, a: Angle, k: int)
    requires SineTable(tab)
    requires INT32_MIN <= a + k * ANGLE_2PI <= INT32_MAX
    ensures AngleSin(tab, a + k * ANGLE_2PI) == AngleSin(tab, a)
  {
    DivModUnique(a + k * ANGLE_2PI, ANGLE_2PI, a / ANGLE_2PI + k, a % ANGLE_2PI);
  }

  /** angle_cos(a) is angle_sin(a + ANGLE_PI2), whether or not the sum overflows. */
  lemma AngleCosShift(tab: seq<int>, a: Angle)
    requires SineTable(tab)
    ensures AngleCos(tab, a) == AngleSin(tab, Wrap(a + ANGLE_PI2))
    ensures a + ANGLE_PI2 <= INT32_MAX ==> AngleCos(tab, a) == AngleSin(tab, a + ANGLE_PI2)
  {
  }

  /** A phase accumulated with 32-bit wrap-around reads the same entry as the
      exact phase: only its value modulo FIXED_ONE matters. */
  lemma FixedSinOfWrap(tab: seq<int>, x: int)
    requires SineTable(tab)
    ensures FixedSin(tab, Wrap(x)) == tab[(x % FIXED_ONE) / ANGLE_STEP]
  {
    ModOfMultipleDiff(Wrap(x), x, FIXED_ONE, 0x1_0000);
  }

  /** One Fixed unit is a full turn: fixed_sin has period FIXED_ONE. */
  lemma FixedSinPeriod(tab: seq<int>, f: Fixed, k: int)
    requires SineTable(tab)
    ensures FixedSin(tab, Wrap(f + k * FIXED_ONE)) == FixedSin(tab, f)
  {
    FixedSinOfWrap(tab, f + k * FIXED_ONE);
    DivModUnique(f + k * FIXED_ONE, FIXED_ONE, f / FIXED_ONE + k, f % FIXED_ONE);
  }

  /** fixed_cos has period FIXED_ONE as well, the phase wrapping in 32 bits. */
  lemma FixedCosPeriod(tab: seq<int>, f: Fixed, k: int)
    requires SineTable(tab)
    ensures FixedCos(tab, Wrap(f + k * FIXED_ONE)) == FixedCos(tab, f)
  {
    var g := f + k * FIXED_ONE;
    ModOfMultipleDiff(Wrap(g), g, FIXED_ONE, 0x1_0000);
    DivModUnique(g, FIXED_ONE, f / FIXED_ONE + k, f % FIXED_ONE);
  }

  /** fixed_cos is fixed_sin a quarter unit later. */
  lemma FixedCosQuarterTurn(tab: seq<int>, f: Fixed)
    requires SineTable(tab)
    ensures FixedCos(tab, f) == FixedSin(tab, Wrap(f + FIXED_ONE / 4))
  {
    var r := f % FIXED_ONE;
    var i := r / ANGLE_STEP;
    var g := f + FIXED_ONE / 4;
    assert FixedCos(tab, f) == tab[(i + ANGLE_PI2) % ANGLE_2PI];
    assert FixedSin(tab, Wrap(g)) == tab[(g % FIXED_ONE) / ANGLE_STEP] by {
      FixedSinOfWrap(tab, g);
    }
    assert g % FIXED_ONE == (r + FIXED_ONE / 4) % FIXED_ONE by {
      DivModUnique(g - (r + FIXED_ONE / 4), FIXED_ONE, f / FIXED_ONE, 0);
      ModOfMultipleDiff(g, r + FIXED_ONE / 4, FIXED_ONE, 1);
    }
    assert ((r + FIXED_ONE / 4) % FIXED_ONE) / ANGLE_STEP == ((r + FIXED_ONE / 4) / ANGLE_STEP) % ANGLE_2PI by {
      DivOfMod(r + FIXED_ONE / 4, ANGLE_STEP, ANGLE_2PI);
    }
    assert (r + FIXED_ONE / 4) / ANGLE_STEP == i + ANGLE_PI2 by {
      DivModUnique(r + FIXED_ONE / 4, ANGLE_STEP, i + ANGLE_PI2, r % ANGLE_STEP);
    }
  }
}
