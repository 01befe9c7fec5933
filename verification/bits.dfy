/** Unsigned bit operations on mathematical integers.

    C's `&` and `|` on non-negative values are modelled one bit at a time, and
    the facts the plasma code relies on (a low mask keeps the remainder, a
    shifted mask keeps a field, disjoint fields combine by addition) are
    proved here once. */
module Bits {

  /** 2 to the power n. */
  function Pow2(n: nat): (r: nat)
    ensures r >= 1
  {
    if n == 0 then 1 else 2 * Pow2(n - 1)
  }

  /** Exponents add: 2^(a+b) == 2^a * 2^b. */
  lemma {:induction false} Pow2Add(a: nat, b: nat)
    ensures Pow2(a + b) == Pow2(a) * Pow2(b)
    decreases a
  {
    if a > 0 {
      Pow2Add(a - 1, b);
      assert Pow2(a + b) == 2 * Pow2(a - 1 + b);
    }
  }

  /** The powers of two the plasma code uses. */
  lemma Pow2Values()
    ensures Pow2(1) == 2 && Pow2(2) == 4 && Pow2(3) == 8 && Pow2(5) == 32
    ensures Pow2(7) == 0x80 && Pow2(8) == 0x100 && Pow2(9) == 0x200 && Pow2(11) == 0x800
    ensures Pow2(16) == 0x1_0000 && Pow2(32) == 0x1_0000_0000
  {
    Pow2Add(8, 8);
    Pow2Add(16, 16);
  }

  /** Bitwise AND of two non-negative integers. */
  function And(a: nat, b: nat): nat
    decreases a
  {
    if a == 0 || b == 0 then 0
    else 2 * And(a / 2, b / 2) + (if a % 2 == 1 && b % 2 == 1 then 1 else 0)
  }

  /** Bitwise OR of two non-negative integers. */
  function Or(a: nat, b: nat): nat
    decreases a
  {
    if a == 0 then b
    else if b == 0 then a
    else 2 * Or(a / 2, b / 2) + (if a % 2 == 1 || b % 2 == 1 then 1 else 0)
  }

  /** Euclidean division is determined by any quotient/remainder pair. */
  lemma DivModUnique(a: int, d: int, q: int, r: int)
    requires d > 0 && 0 <= r < d && a == q * d + r
    ensures a / d == q && a % d == r
  {
    var q0, r0 := a / d, a % d;
    assert a == q0 * d + r0;
    if q0 < q {
      assert (q - q0) * d >= d by { MulAtLeast(q - q0, d); }
      assert false;
    } else if q < q0 {
      assert (q0 - q) * d >= d by { MulAtLeast(q0 - q, d); }
      assert false;
    }
  }

  lemma MulAtLeast(k: int, d: int)
    requires k >= 1 && d > 0
    ensures k * d >= d
  {
  }

  /** Halving commutes with division and splits the remainder by a doubled divisor. */
  lemma DivModHalf(a: nat, p: nat)
    requires p > 0
    ensures a / (2 * p) == (a / 2) / p
    ensures a % (2 * p) == 2 * ((a / 2) % p) + a % 2
  {
    var h, b := a / 2, a % 2;
    var q, r := h / p, h % p;
    assert a == q * (2 * p) + (2 * r + b);
    DivModUnique(a, 2 * p, q, 2 * r + b);
  }

  /** Reducing modulo a multiple of d first does not change the remainder modulo d. */
  lemma ModOfMod(x: int, d: nat, m: nat)
    requires d > 0 && m > 0
    ensures (x % (d * m)) % d == x % d
  {
    var q, r := x / (d * m), x % (d * m);
    assert x == q * (d * m) + r;
    var q2, r2 := r / d, r % d;
    assert r == q2 * d + r2;
    assert x == (q * m + q2) * d + r2;
    DivModUnique(x, d, q * m + q2, r2);
  }

  /** Values that differ by a multiple of d * m agree modulo d. */
  lemma ModOfMultipleDiff(x: int, y: int, d: nat, m: nat)
    requires d > 0 && m > 0
    requires (x - y) % (d * m) == 0
    ensures x % d == y % d
  {
    var k := (x - y) / (d * m);
    assert x - y == k * (d * m);
    var q, r := y / d, y % d;
    assert x == (q + k * m) * d + r;
    DivModUnique(x, d, q + k * m, r);
  }

  /** Splitting a remainder: (x / d) mod m is read off x mod (d * m). */
  lemma DivOfMod(x: int, d: nat, m: nat)
    requires d > 0 && m > 0
    ensures (x / d) % m == (x % (d * m)) / d
  {
    var q, r := x / (d * m), x % (d * m);
    var q2, r2 := r / d, r % d;
    QuotientBelow(r, d, m);
    Regroup(x, d, m, q, r, q2, r2);
    DivModUnique(x, d, q * m + q2, r2);
    DivModUnique(q * m + q2, m, q, q2);
  }

  /** A value below d * m has a quotient by d below m. */
  lemma QuotientBelow(r: nat, d: nat, m: nat)
    requires d > 0 && r < d * m
    ensures 0 <= r / d < m
  {
    var q2 := r / d;
    assert r == q2 * d + r % d;
    DivNonNeg(r, d);
    if q2 >= m {
      assert q2 * d >= m * d by { MulMonotone(m, q2, d); }
    }
  }

  /** Two levels of quotient and remainder combine into one. */
  lemma Regroup(x: int, d: int, m: int, q: int, r: int, q2: int, r2: int)
    requires x == q * (d * m) + r && r == q2 * d + r2
    ensures x == (q * m + q2) * d + r2
  {
    assert q * (d * m) == (q * m) * d;
  }

  /** Facts about dividing a non-negative value by a positive one. */
  lemma DivNonNeg(a: nat, d: nat)
    requires d > 0
    ensures 0 <= a / d <= a
    ensures a < d ==> a / d == 0
  {
    if a < d {
      DivModUnique(a, d, 0, a);
    } else if a / d >= 1 {
      MulAtLeast(d, a / d);
    }
  }

  lemma MulMonotone(a: int, b: int, c: nat)
    requires a <= b
    ensures a * c <= b * c
  {
  }

  /** Masking with 2^n - 1 keeps the remainder modulo 2^n. */
  lemma {:induction false} AndLowMask(a: nat, n: nat)
    ensures And(a, Pow2(n) - 1) == a % Pow2(n)
    decreases n
  {
    if n == 0 {
    } else if a == 0 {
    } else {
      var p := Pow2(n - 1);
      assert Pow2(n) - 1 == 2 * (p - 1) + 1;
      AndLowMask(a / 2, n - 1);
      DivModHalf(a, p);
    }
  }

  /** AND with an even mask ignores the low bit. */
  lemma AndEvenMask(a: nat, m: nat)
    requires a > 0 && m > 0
    ensures And(a, 2 * m) == 2 * And(a / 2, m)
  {
    assert (2 * m) / 2 == m && (2 * m) % 2 == 0;
  }

  lemma Pow2Monotone(k: nat, n: nat)
    requires k <= n
    ensures Pow2(k) <= Pow2(n)
    decreases n
  {
    if k < n {
      Pow2Monotone(k, n - 1);
    }
  }

  /** Masking with the bits k..n-1 set keeps a mod 2^n with its low k bits cleared. */
  lemma AndRangeMask(a: nat, n: nat, k: nat)
    requires k <= n
    ensures Pow2(k) <= Pow2(n)
    ensures And(a, Pow2(n) - Pow2(k)) == a % Pow2(n) - a % Pow2(k)
  {
    Pow2Monotone(k, n);
    var m := Pow2(n - k) - 1;
    var masked := And(ShrN(a, k), m);
    assert And(a, Pow2(n) - Pow2(k)) == Shl(masked, k) by {
      assert Shl(m, k) == Pow2(n) - Pow2(k) by { ShiftedMask(n, k); }
      AndShift(a, m, k);
    }
    assert Shl(masked, k) == a % Pow2(n) - a % Pow2(k) by { MaskedHigh(a, n, k, masked); }
  }

  /** The mask with bits k..n-1 set is 2^(n-k) - 1 shifted left by k. */
  lemma ShiftedMask(n: nat, k: nat)
    requires k <= n
    ensures Shl(Pow2(n - k) - 1, k) == Pow2(n) - Pow2(k)
  {
    var pk, pd := Pow2(k), Pow2(n - k);
    assert Shl(pd - 1, k) == (pd - 1) * pk by { ShlIsProduct(pd - 1, k); }
    assert Pow2(n) == pd * pk by { Pow2Add(n - k, k); }
    assert (pd - 1) * pk == pd * pk - pk;
  }

  /** The low n - k bits of a >> k, shifted back up, are the bits of a between k and n. */
  lemma MaskedHigh(a: nat, n: nat, k: nat, masked: nat)
    requires k <= n
    requires masked == And(ShrN(a, k), Pow2(n - k) - 1)
    ensures Shl(masked, k) == a % Pow2(n) - a % Pow2(k)
  {
    var pk, pd, pn := Pow2(k), Pow2(n - k), Pow2(n);
    assert masked == (a / pk) % pd by {
      AndLowMask(ShrN(a, k), n - k);
      ShrNIsQuotient(a, k);
    }
    assert Shl(masked, k) == masked * pk by { ShlIsProduct(masked, k); }
    assert pn == pd * pk by { Pow2Add(n - k, k); }
    HighBits(a, pk, pd, pn, masked);
  }

  /** The arithmetic of AndRangeMask: the bits of a between 2^k and 2^n, in place. */
  lemma HighBits(a: nat, pk: nat, pd: nat, pn: nat, masked: int)
    requires pk > 0 && pd > 0 && pn == pd * pk
    requires masked == (a / pk) % pd
    ensures masked * pk == a % pn - a % pk
  {
    assert masked == (a % (pk * pd)) / pk by { DivOfMod(a, pk, pd); }
    assert (a % (pk * pd)) % pk == a % pk by { ModOfMod(a, pk, pd); }
    assert pk * pd == pn;
  }

  /** `x << k` as repeated doubling. */
  function Shl(x: nat, k: nat): nat
  {
    if k == 0 then x else 2 * Shl(x, k - 1)
  }

  /** `a >> k` as repeated halving. */
  function ShrN(a: nat, k: nat): nat
  {
    if k == 0 then a else ShrN(a / 2, k - 1)
  }

  lemma {:induction false} ShlIsProduct(x: nat, k: nat)
    ensures Shl(x, k) == x * Pow2(k)
  {
    if k > 0 {
      ShlIsProduct(x, k - 1);
      assert 2 * (x * Pow2(k - 1)) == x * (2 * Pow2(k - 1));
    }
  }

  lemma {:induction false} ShrNIsQuotient(a: nat, k: nat)
    ensures ShrN(a, k) == a / Pow2(k)
  {
    if k > 0 {
      ShrNIsQuotient(a / 2, k - 1);
      DivModHalf(a, Pow2(k - 1));
    }
  }

  /** AND with a mask shifted left by k is the AND of the shifted-down value, shifted back up. */
  lemma {:induction false} AndShift(a: nat, m: nat, k: nat)
    ensures And(a, Shl(m, k)) == Shl(And(ShrN(a, k), m), k)
    decreases k
  {
    if k > 0 {
      var inner := Shl(m, k - 1);
      if a == 0 {
        assert ShrN(0, k) == 0 by { ShrNOfZero(k); }
        assert Shl(0, k) == 0 by { ShlOfZero(k); }
      } else if m == 0 {
        assert inner == 0 by { ShlOfZero(k - 1); }
        assert Shl(0, k) == 0 by { ShlOfZero(k); }
      } else {
        assert inner > 0 by { ShlPositive(m, k - 1); }
        assert And(a, 2 * inner) == 2 * And(a / 2, inner) by { AndEvenMask(a, inner); }
        AndShift(a / 2, m, k - 1);
      }
    }
  }

  lemma {:induction false} ShlOfZero(k: nat)
    ensures Shl(0, k) == 0
  {
    if k > 0 { ShlOfZero(k - 1); }
  }

  lemma {:induction false} ShlPositive(x: nat, k: nat)
    requires x > 0
    ensures Shl(x, k) > 0
  {
    if k > 0 { ShlPositive(x, k - 1); }
  }

  lemma {:induction false} ShrNOfZero(k: nat)
    ensures ShrN(0, k) == 0
  {
    if k > 0 { ShrNOfZero(k - 1); }
  }

  /** OR of a value shifted left by k with a value below 2^k is their sum. */
  lemma {:induction false} OrDisjoint(a: nat, k: nat, b: nat)
    requires b < Pow2(k)
    ensures Or(a * Pow2(k), b) == a * Pow2(k) + b
    decreases k
  {
    if k == 0 {
    } else {
      var p := Pow2(k - 1);
      assert a * Pow2(k) == 2 * (a * p);
      if a * p == 0 || b == 0 {
      } else {
        OrDisjoint(a, k - 1, b / 2);
      }
    }
  }
}
