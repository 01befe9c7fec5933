/** The RGB565 colour palette of plasma.c: `make565`, the 256-entry table
    built by `init_palette`, and `palette_from_fixed`, which maps a Fixed
    intensity to a table entry. */
module Palette {
  import opened Bits
  import opened Int32
  import opened FixedPoint

  const PALETTE_BITS: nat := 8
  const PALETTE_SIZE: int := 0x100
  /** Entries per band of init_palette: PALETTE_SIZE / 4. */
  const BAND_SIZE: int := 0x40

  /** make565: `((red << 8) & 0xf800) | ((green << 2) & 0x03e0) | ((blue >> 3) & 0x001f)`.
      Each channel keeps its bits 3..7: red lands in bits 11..15, blue in bits
      0..4, and green, through the mask 0x03e0, in bits 5..9 only, so bit 10
      (the top bit of the six-bit green field of RGB565) is never set.
      The channels are non-negative and small enough for the left shifts to
      stay inside `int`, as at every call site (all pass values in 0..255). */
  function Make565(red: nat, green: nat, blue: nat): (c: nat)
    requires red < 0x80_0000 && green < 0x2000_0000
    ensures c < 0x1_0000
    ensures c == ((red / 8) % 32) * 0x800 + ((green / 8) % 32) * 0x20 + (blue / 8) % 32
    ensures (c / 0x400) % 2 == 0
  {
    var r := And(red * 0x100, 0xf800);
    var g := And(green * 4, 0x03e0);
    var b := And(blue / 8, 0x001f);
    RedField(red);
    GreenField(green);
    BlueField(blue);
    Pack565((red / 8) % 32, (green / 8) % 32, (blue / 8) % 32);
    Or(Or(r, g), b)
  }

  /** `(red << 8) & 0xf800` is red's bits 3..7 placed at bits 11..15. */
  lemma RedField(red: nat)
    requires red < 0x80_0000
    ensures And(red * 0x100, 0xf800) == ((red / 8) % 32) * 0x800
  {
    Pow2Values();
    Pow2Add(11, 5);
    AndRangeMask(red * 0x100, 16, 11);
    var R, q, s := (red / 8) % 32, (red / 8) / 32, red % 8;
    assert red == q * 256 + R * 8 + s;
    DivModUnique(red * 0x100, 0x1_0000, q, R * 0x800 + s * 0x100);
    DivModUnique(red * 0x100, 0x800, q * 32 + R, s * 0x100);
  }

  /** `(green << 2) & 0x03e0` is green's bits 3..7 placed at bits 5..9. */
  lemma GreenField(green: nat)
    requires green < 0x2000_0000
    ensures And(green * 4, 0x03e0) == ((green / 8) % 32) * 0x20
  {
    Pow2Values();
    Pow2Add(5, 5);
    AndRangeMask(green * 4, 10, 5);
    var G, q, s := (green / 8) % 32, (green / 8) / 32, green % 8;
    assert green == q * 256 + G * 8 + s;
    DivModUnique(green * 4, 0x400, q, G * 0x20 + s * 4);
    DivModUnique(green * 4, 0x20, q * 32 + G, s * 4);
  }

  /** `(blue >> 3) & 0x001f` is blue's bits 3..7 at bits 0..4. */
  lemma BlueField(blue: nat)
    ensures And(blue / 8, 0x001f) == (blue / 8) % 32
  {
    Pow2Values();
    AndLowMask(blue / 8, 5);
  }

  /** Five-bit fields at bits 11, 5 and 0 combine by addition and leave bit 10 clear. */
  lemma Pack565(R: nat, G: nat, B: nat)
    requires R < 32 && G < 32 && B < 32
    ensures Or(Or(R * 0x800, G * 0x20), B) == R * 0x800 + G * 0x20 + B
    ensures ((R * 0x800 + G * 0x20 + B) / 0x400) % 2 == 0
  {
    OrRedGreen(R, G);
    OrBlue(R * 64 + G, B);
    DivModUnique(R * 0x800 + G * 0x20 + B, 0x400, 2 * R, G * 0x20 + B);
    DivModUnique(2 * R, 2, R, 0);
  }

  lemma OrRedGreen(R: nat, G: nat)
    requires G < 32
    ensures Or(R * 0x800, G * 0x20) == R * 0x800 + G * 0x20
  {
    Pow2Values();
    OrDisjoint(R, 11, G * 0x20);
  }

  lemma OrBlue(RG: nat, B: nat)
    requires B < 32
    ensures Or(RG * 0x20, B) == RG * 0x20 + B
  {
    Pow2Values();
    OrDisjoint(RG, 5, B);
  }

  /** `jj` of init_palette for local index n of a band: `n*4*255/PALETTE_SIZE`,
      i.e. n * 255 / 64 rounded down. */
  function BandOffset(n: nat): (jj: nat)
    requires n < BAND_SIZE
    ensures jj <= 251
    ensures jj * BAND_SIZE <= n * 255 < jj * BAND_SIZE + BAND_SIZE
  {
    n * 4 * 255 / PALETTE_SIZE
  }

  /** The colour of band `band` at offset jj, as the four loops of init_palette write it:
      magenta to white-ish yellow, yellow to green-cyan, cyan to blue, blue to magenta. */
  function BandColor(band: nat, jj: nat): nat
    requires band < 4 && jj <= 255
  {
    match band
    case 0 => Make565(255, jj, 255 - jj)
    case 1 => Make565(255 - jj, 255, jj)
    case 2 => Make565(0, 255 - jj, 255)
    case 3 => Make565(jj, 0, 255)
  }

  /** Palette entries are valid 16-bit RGB565 values whose bit 10 is clear. */
  predicate Is565(c: nat)
  {
    c < 0x1_0000 && (c / 0x400) % 2 == 0
  }

  /** Entry nn of the palette: band nn / 64 at offset BandOffset(nn % 64). */
  function PaletteEntry(nn: nat): (c: nat)
    requires nn < PALETTE_SIZE
    ensures Is565(c)
  {
    BandColor(nn / BAND_SIZE, BandOffset(nn % BAND_SIZE))
  }

  /** One loop of init_palette: `for (mm = nn; nn < end; nn++)` writing band
      `band`'s colour with `jj = (nn-mm)*4*255/PALETTE_SIZE`. */
  method FillBand(pal: seq<nat>, band: nat) returns (pal': seq<nat>)
    requires band < 4 && |pal| == band * BAND_SIZE
    requires forall i :: 0 <= i < |pal| ==> pal[i] == PaletteEntry(i)
    ensures |pal'| == (band + 1) * BAND_SIZE
    ensures forall i :: 0 <= i < |pal'| ==> pal'[i] == PaletteEntry(i)
  {
    pal' := pal;
    var nn := |pal|;
    var mm := nn;
    while nn < (band + 1) * BAND_SIZE
      invariant mm <= nn <= (band + 1) * BAND_SIZE && mm == band * BAND_SIZE
      invariant |pal'| == nn
      invariant forall i :: 0 <= i < nn ==> pal'[i] == PaletteEntry(i)
    {
      var jj := (nn - mm) * 4 * 255 / PALETTE_SIZE;
      BandEntry(nn, band, jj);
      pal' := pal' + [BandColor(band, jj)];
      nn := nn + 1;
    }
  }

  /** init_palette: the four bands written one after the other. */
  method InitPalette() returns (pal: seq<nat>)
    ensures |pal| == PALETTE_SIZE
    ensures forall nn :: 0 <= nn < PALETTE_SIZE ==> pal[nn] == PaletteEntry(nn) && Is565(pal[nn])
  {
    pal := FillBand([], 0);
    pal := FillBand(pal, 1);
    pal := FillBand(pal, 2);
    pal := FillBand(pal, 3);
  }

  /** The jj computed by the loop for entry nn of band `band` is the entry's offset. */
  lemma BandEntry(nn: nat, band: nat, jj: int)
    requires band < 4
    requires band * BAND_SIZE <= nn < band * BAND_SIZE + BAND_SIZE
    requires jj == (nn - band * BAND_SIZE) * 4 * 255 / PALETTE_SIZE
    ensures 0 <= jj <= 251
    ensures PaletteEntry(nn) == BandColor(band, jj)
  {
    BandPosition(nn, band);
  }

  /** Entry nn lies in band `band` at local index nn - band * BAND_SIZE. */
  lemma BandPosition(nn: nat, band: nat)
    requires band * BAND_SIZE <= nn < band * BAND_SIZE + BAND_SIZE
    ensures nn / BAND_SIZE == band && nn % BAND_SIZE == nn - band * BAND_SIZE
  {
    DivModUnique(nn, BAND_SIZE, band, nn - band * BAND_SIZE);
  }

  /** Within a band the offset climbs by 3 or 4 per entry, from 0 up to 251. */
  lemma BandOffsetSteps(n: nat)
    requires n + 1 < BAND_SIZE
    ensures BandOffset(0) == 0 && BandOffset(BAND_SIZE - 1) == 251
    ensures 3 <= BandOffset(n + 1) - BandOffset(n) <= 4
  {
  }

  /** The table index palette_from_fixed reads for x:
      `if (x < 0) x = -x; if (x >= FIXED_ONE) x = FIXED_ONE-1;`
      then `FIXED_FRAC(x) >> (FIXED_BITS - PALETTE_BITS)` masked to PALETTE_SIZE-1.
      Negation wraps in 32 bits, so INT32_MIN stays negative and reads entry 0. */
  function PaletteIndex(x: Fixed): (idx: nat)
    ensures idx < PALETTE_SIZE
    ensures x != INT32_MIN ==> idx == (if Abs(x) < FIXED_ONE then Abs(x) else FIXED_ONE - 1) / 0x100
    ensures x == INT32_MIN ==> idx == 0
  {
    var a := if x < 0 then Wrap(-(x as int)) else x;
    var c := if a >= FIXED_ONE then FIXED_ONE - 1 else a;
    var i := Shr(Frac(c), FIXED_BITS - PALETTE_BITS);
    IndexBits(x, a, c, i);
    And(i, PALETTE_SIZE - 1)
  }

  /** The steps of palette_from_fixed, value by value. */
  lemma IndexBits(x: Fixed, a: Fixed, c: Fixed, i: int)
    requires a == (if x < 0 then Wrap(-(x as int)) else x)
    requires c == (if a >= FIXED_ONE then FIXED_ONE - 1 else a)
    requires i == Shr(Frac(c), FIXED_BITS - PALETTE_BITS)
    ensures 0 <= i < PALETTE_SIZE
    ensures And(i, PALETTE_SIZE - 1) == i
    ensures x != INT32_MIN ==> i == (if Abs(x) < FIXED_ONE then Abs(x) else FIXED_ONE - 1) / 0x100
    ensures x == INT32_MIN ==> i == 0
  {
    var f := Frac(c);
    FractionTopBits(f, i);
    if x == INT32_MIN {
      assert a == INT32_MIN by { WrapOfMinNegated(-(x as int)); }
      assert c == a;
      assert c % FIXED_ONE == 0 by { DivModUnique(c, FIXED_ONE, -0x8000, 0); }
      assert f == 0 by { FracOfWhole(c); }
    } else {
      assert c == (if Abs(x) < FIXED_ONE then Abs(x) else FIXED_ONE - 1);
      DivModUnique(c, FIXED_ONE, 0, c);
    }
  }

  /** The top eight of sixteen fraction bits, masked with PALETTE_SIZE - 1, are unchanged by the mask. */
  lemma FractionTopBits(f: int, i: int)
    requires 0 <= f < FIXED_ONE
    requires i == Shr(f, FIXED_BITS - PALETTE_BITS)
    ensures i == f / 0x100 && 0 <= i < PALETTE_SIZE
    ensures And(i, PALETTE_SIZE - 1) == i
  {
    Pow2Values();
    DivModUnique(f, 0x100, f / 0x100, f % 0x100);
    AndLowMask(i, PALETTE_BITS);
    DivModUnique(i, PALETTE_SIZE, 0, i);
  }

  /** A value with no fraction bits has FIXED_FRAC zero. */
  lemma FracOfWhole(c: Fixed)
    requires c % FIXED_ONE == 0
    ensures Frac(c) == 0
  {
  }

  /** Negating INT32_MIN in 32 bits gives INT32_MIN back. */
  lemma WrapOfMinNegated(v: int)
    requires v == -INT32_MIN
    ensures Wrap(v) == INT32_MIN
  {
    DivModUnique(v - INT32_MIN, TWO32, 1, 0);
  }

  /** palette_from_fixed: the palette entry for a Fixed intensity. */
  function PaletteFromFixed(pal: seq<nat>, x: Fixed): (c: nat)
    requires |pal| == PALETTE_SIZE
    ensures exists i :: 0 <= i < PALETTE_SIZE && c == pal[i]
  {
    pal[PaletteIndex(x)]
  }

  /** palette_from_fixed only sees |x|: x and -x give the same colour. */
  lemma PaletteSymmetric(pal: seq<nat>, x: Fixed)
    requires |pal| == PALETTE_SIZE
    requires x != INT32_MIN
    ensures PaletteFromFixed(pal, x) == PaletteFromFixed(pal, -x)
  {
  }

  /** Every intensity of magnitude at least FIXED_ONE saturates to the last entry. */
  lemma PaletteSaturates(pal: seq<nat>, x: Fixed)
    requires |pal| == PALETTE_SIZE
    requires x != INT32_MIN && Abs(x) >= FIXED_ONE
    ensures PaletteFromFixed(pal, x) == pal[PALETTE_SIZE - 1]
  {
  }

  /** Below FIXED_ONE the index is the top eight fraction bits of |x|, so it grows with |x|. */
  lemma PaletteIndexMonotone(x: Fixed, y: Fixed)
    requires x != INT32_MIN && y != INT32_MIN && Abs(x) <= Abs(y)
    ensures PaletteIndex(x) <= PaletteIndex(y)
  {
  }
}
