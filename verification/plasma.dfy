/** fill_plasma: one frame of the plasma effect written into an RGB565 bitmap.

    Row y mixes two row sines (phases yt1 and yt2, both starting at the
    frame's yt1) into a `base`; column k of that row adds two column sines
    (phases xt1 and xt2, both restarting at the frame's xt10 on every row),
    shifts the sum right by two and looks the colour up with
    palette_from_fixed. The compiled path writes a row as an optional single
    pixel (when the row does not start on a 4-byte boundary), then pairs of
    pixels packed into one 32-bit store, then an optional last pixel.

    The bitmap is a sequence of 16-bit words; `addr` is the byte address of
    the first pixel, which decides the alignment of every row, and
    `littleEndian` says how a 32-bit store lays its halves out in memory.
    The starting phases are parameters: the conversion of the frame time to
    Fixed goes through floating point. */
module Plasma {
  import opened Bits
  import opened Int32
  import opened FixedPoint
  import opened Angles
  import opened Palette

  /** FIXED_FROM_FLOAT(1/100.) and FIXED_FROM_FLOAT(1/163.): the row phase steps. */
  const YT1_INCR: int := 655
  const YT2_INCR: int := 402
  /** FIXED_FROM_FLOAT(1/173.) and FIXED_FROM_FLOAT(1/242.): the column phase steps. */
  const XT1_INCR: int := 378
  const XT2_INCR: int := 270

  /** The parts of AndroidBitmapInfo the fill reads; the stride is in bytes. */
  datatype BitmapInfo = BitmapInfo(width: nat, height: nat, stride: nat)

  /** Where and how the bitmap sits in memory. */
  datatype Target = Target(info: BitmapInfo, addr: nat, littleEndian: bool)

  /** The tables fill_plasma reads: the sine table and the uint16_t palette. */
  predicate ValidTables(tab: seq<int>, pal: seq<nat>)
  {
    && SineTable(tab)
    && |pal| == PALETTE_SIZE
    && forall i :: 0 <= i < |pal| ==> pal[i] < 0x1_0000
  }

  /** A phase counter after n executions of `+= incr` from `start`, each addition
      wrapping in an int32_t. */
  function Phase(start: Fixed, incr: int, n: nat): Fixed
  {
    if n == 0 then start else Wrap(Phase(start, incr, n - 1) + incr)
  }

  /** The counter after n steps holds `start + n * incr` reduced to 32 bits. */
  lemma {:induction false} PhaseClosedForm(start: Fixed, incr: int, n: nat)
    ensures Phase(start, incr, n) == Wrap(start + n * incr)
  {
    if n > 0 {
      var a := start + (n - 1) * incr;
      assert Phase(start, incr, n - 1) == Wrap(a) by { PhaseClosedForm(start, incr, n - 1); }
      assert a + incr == start + n * incr by { MulSucc(n - 1, incr); }
      WrapStep(Phase(start, incr, n - 1), a, incr, start + n * incr);
    }
  }

  /** Adding incr to a wrapped counter and wrapping again agrees with wrapping the exact sum. */
  lemma WrapStep(p: int, a: int, incr: int, b: int)
    requires p == Wrap(a) && b == a + incr
    ensures Wrap(p + incr) == Wrap(b)
  {
    WrapAdd(a, incr);
  }

  /** One more step of `incr` adds incr to the product. */
  lemma MulSucc(m: int, incr: int)
    ensures (m + 1) * incr == m * incr + incr
  {
  }

  /** The `base` of row y: the two row sines read before yt1 and yt2 advance. */
  function RowBase(tab: seq<int>, yt1: Fixed, y: nat): (base: int)
    requires SineTable(tab)
    ensures -2 * FIXED_ONE <= base <= 2 * FIXED_ONE
  {
    FixedSin(tab, Phase(yt1, YT1_INCR, y)) + FixedSin(tab, Phase(yt1, YT2_INCR, y))
  }

  /** The intensity `ii` of column k: the row base plus the two column sines. */
  function Intensity(tab: seq<int>, base: int, xt10: Fixed, k: nat): (ii: Fixed)
    requires SineTable(tab)
    requires -2 * FIXED_ONE <= base <= 2 * FIXED_ONE
    ensures -4 * FIXED_ONE <= ii <= 4 * FIXED_ONE
  {
    base + FixedSin(tab, Phase(xt10, XT1_INCR, k)) + FixedSin(tab, Phase(xt10, XT2_INCR, k))
  }

  /** `palette_from_fixed(ii >> 2)`: the colour of an intensity. */
  function Shade(pal: seq<nat>, ii: int): (c: nat)
    requires |pal| == PALETTE_SIZE && forall i :: 0 <= i < |pal| ==> pal[i] < 0x1_0000
    requires -4 * FIXED_ONE <= ii <= 4 * FIXED_ONE
    ensures c < 0x1_0000
    ensures exists i :: 0 <= i < PALETTE_SIZE && c == pal[i]
  {
    Pow2Values();
    PaletteFromFixed(pal, Shr(ii, 2))
  }

  /** The colour computed for column k of a row with the given base. */
  function ColumnColor(tab: seq<int>, pal: seq<nat>, base: int, xt10: Fixed, k: nat): (c: nat)
    requires ValidTables(tab, pal)
    requires -2 * FIXED_ONE <= base <= 2 * FIXED_ONE
    ensures c < 0x1_0000
  {
    Shade(pal, Intensity(tab, base, xt10, k))
  }

  /** The pixels a row writes one at a time before the paired loop: one when its start is not 4-byte aligned. */
  function Lead(width: nat, misaligned: bool): nat
  {
    if misaligned && width > 0 then 1 else 0
  }

  /** Whether pixel k of a row is written by the paired 32-bit store. */
  predicate InPair(width: nat, misaligned: bool, k: nat)
  {
    var lead := Lead(width, misaligned);
    lead <= k && (k - lead) / 2 < (width - lead) / 2
  }

  /** The index, in computation order, of the value that ends up at pixel k of a row.
      A paired store holds `(first << 16) | second`; on a little-endian machine the
      second value lands at the lower address. */
  function StoredValue(width: nat, misaligned: bool, littleEndian: bool, k: nat): nat
  {
    if littleEndian && InPair(width, misaligned, k) then
      if (k - Lead(width, misaligned)) % 2 == 0 then k + 1 else k - 1
    else k
  }

  /** Every computed value of a row is stored exactly once, inside the row:
      the placement is its own inverse, and the identity on a big-endian machine. */
  lemma StoredValuePermutes(width: nat, misaligned: bool, littleEndian: bool, k: nat)
    requires k < width
    ensures StoredValue(width, misaligned, littleEndian, k) < width
    ensures StoredValue(width, misaligned, littleEndian, StoredValue(width, misaligned, littleEndian, k)) == k
    ensures !littleEndian ==> StoredValue(width, misaligned, littleEndian, k) == k
  {
    var lead := Lead(width, misaligned);
    if littleEndian && InPair(width, misaligned, k) {
      var k' := StoredValue(width, misaligned, littleEndian, k);
      assert InPair(width, misaligned, k');
    }
  }

  /** The halves of the 32-bit word `(first << 16) | second` built from two palette entries. */
  lemma PackPair(first: nat, second: nat)
    requires first < 0x1_0000 && second < 0x1_0000
    ensures Or(first * 0x1_0000, second) < TWO32
    ensures Or(first * 0x1_0000, second) / 0x1_0000 == first
    ensures Or(first * 0x1_0000, second) % 0x1_0000 == second
  {
    Pow2Values();
    OrDisjoint(first, 16, second);
    DivModUnique(first * 0x1_0000 + second, 0x1_0000, first, second);
  }

  /** `((uint32_t*)line)[j / 2] = word`: a 32-bit store into two adjacent 16-bit pixels. */
  function Store32(line: seq<nat>, j: nat, word: nat, littleEndian: bool): (line': seq<nat>)
    requires j + 2 <= |line| && word < TWO32
    ensures |line'| == |line|
    ensures forall k :: 0 <= k < |line| && k != j && k != j + 1 ==> line'[k] == line[k]
    ensures line'[j] < 0x1_0000 && line'[j + 1] < 0x1_0000
    ensures littleEndian ==> line'[j] + line'[j + 1] * 0x1_0000 == word
    ensures !littleEndian ==> line'[j] * 0x1_0000 + line'[j + 1] == word
  {
    var lo, hi := word % 0x1_0000, word / 0x1_0000;
    assert hi < 0x1_0000 by { DivModUnique(word, 0x1_0000, hi, lo); }
    if littleEndian then line[j := lo][j + 1 := hi] else line[j := hi][j + 1 := lo]
  }

  /** `x += incr` on a phase counter: after n + 1 steps the counter holds
      `start + (n + 1) * incr` reduced to 32 bits. */
  method Advance(start: Fixed, incr: int, n: nat, x: Fixed) returns (x': Fixed)
    requires x == Phase(start, incr, n)
    ensures x' == Phase(start, incr, n + 1)
    ensures x' == Wrap(start + (n + 1) * incr)
  {
    x' := Wrap(x + incr);
    PhaseClosedForm(start, incr, n + 1);
  }

  /** The sine read at a phase counter after n steps is the table entry at the
      fraction of the exact phase `start + n * incr`. */
  lemma PhaseSine(tab: seq<int>, start: Fixed, incr: int, n: nat, x: Fixed)
    requires SineTable(tab) && x == Phase(start, incr, n)
    ensures FixedSin(tab, x) == tab[((start + n * incr) % FIXED_ONE) / ANGLE_STEP]
  {
    PhaseClosedForm(start, incr, n);
    FixedSinOfWrap(tab, start + n * incr);
  }

  /** The intensity of column j reads the table at the fractions of the exact
      phases `xt10 + j * XT1_INCR` and `xt10 + j * XT2_INCR`, however often the
      counters wrapped on the way. */
  lemma IntensityClosedForm(tab: seq<int>, base: int, xt10: Fixed, j: nat)
    requires SineTable(tab)
    requires -2 * FIXED_ONE <= base <= 2 * FIXED_ONE
    ensures Intensity(tab, base, xt10, j) ==
              base + tab[((xt10 + j * XT1_INCR) % FIXED_ONE) / ANGLE_STEP]
                   + tab[((xt10 + j * XT2_INCR) % FIXED_ONE) / ANGLE_STEP]
  {
    PhaseSine(tab, xt10, XT1_INCR, j, Phase(xt10, XT1_INCR, j));
    PhaseSine(tab, xt10, XT2_INCR, j, Phase(xt10, XT2_INCR, j));
  }

  /** `pixel = (first << 16) | second; ((uint32_t*)line)[0] = pixel` at pixel offset j. */
  method StorePair(line: seq<nat>, j: nat, first: nat, second: nat, littleEndian: bool)
    returns (line': seq<nat>)
    requires j + 2 <= |line| && first < 0x1_0000 && second < 0x1_0000
    ensures |line'| == |line|
    ensures forall k :: 0 <= k < |line| && k != j && k != j + 1 ==> line'[k] == line[k]
    ensures line'[j] == (if littleEndian then second else first)
    ensures line'[j + 1] == (if littleEndian then first else second)
  {
    PackPair(first, second);
    var pixel := Or(first * 0x1_0000, second);
    line' := Store32(line, j, pixel, littleEndian);
    var lo, hi := line'[j], line'[j + 1];
    if littleEndian {
      DivModUnique(pixel, 0x1_0000, hi, lo);
    } else {
      DivModUnique(pixel, 0x1_0000, lo, hi);
    }
  }

  /** The values f(0), ..., f(n - 1) in order. */
  function Tabulate(f: nat -> nat, n: nat): (s: seq<nat>)
    ensures |s| == n
  {
    if n == 0 then [] else Tabulate(f, n - 1) + [f(n - 1)]
  }

  /** Entry k of a tabulation is f(k). */
  lemma {:induction false} TabulateAt(f: nat -> nat, n: nat)
    ensures forall k :: 0 <= k < n ==> Tabulate(f, n)[k] == f(k)
  {
    if n > 0 {
      TabulateAt(f, n - 1);
    }
  }

  /** The colours of a row: the column phases restart at xt10 and advance by
      XT1_INCR and XT2_INCR after every value. */
  method RowColors(tab: seq<int>, pal: seq<nat>, base: int, xt10: Fixed, width: nat)
    returns (colors: seq<nat>)
    requires ValidTables(tab, pal)
    requires -2 * FIXED_ONE <= base <= 2 * FIXED_ONE
    ensures |colors| == width
    ensures forall k :: 0 <= k < width ==> colors[k] == ColumnColor(tab, pal, base, xt10, k)
  {
    var f: nat -> nat := k => ColumnColor(tab, pal, base, xt10, k);
    colors := [];
    var j := 0;
    var xt1, xt2 := xt10, xt10;
    while j < width
      invariant j <= width
      invariant xt1 == Phase(xt10, XT1_INCR, j) && xt2 == Phase(xt10, XT2_INCR, j)
      invariant colors == Tabulate(f, j)
    {
      var ii := base + FixedSin(tab, xt1) + FixedSin(tab, xt2);
      assert ii == Intensity(tab, base, xt10, j);
      var c := Shade(pal, ii);
      xt1 := Advance(xt10, XT1_INCR, j, xt1);
      xt2 := Advance(xt10, XT2_INCR, j, xt2);
      colors := colors + [c];
      j := j + 1;
    }
    TabulateAt(f, width);
  }

  /** The stores of one row (the OPTIMIZE_WRITES path): a single pixel when the row
      start is `misaligned` (not a multiple of four bytes), then one 32-bit store per
      pair of pixels, then a single last pixel when one is left. `colors` are the
      row's values in computation order. */
  method StoreRow(line: seq<nat>, colors: seq<nat>, misaligned: bool, littleEndian: bool)
    returns (row: seq<nat>)
    requires |colors| == |line|
    requires forall k :: 0 <= k < |colors| ==> colors[k] < 0x1_0000
    ensures |row| == |line|
    ensures forall k :: 0 <= k < |row| ==> row[k] == colors[StoredValue(|line|, misaligned, littleEndian, k)]
  {
    var width := |line|;
    var lead := Lead(width, misaligned);
    row := line;
    var j := 0;
    if j < width {
      if misaligned {
        assert !InPair(width, misaligned, j);
        row := row[j := colors[j]];
        j := j + 1;
      }
      while j + 2 <= width
        invariant lead <= j <= width && (j - lead) % 2 == 0
        invariant |row| == width
        invariant forall k :: 0 <= k < j ==> row[k] == colors[StoredValue(width, misaligned, littleEndian, k)]
      {
        PairStored(width, misaligned, littleEndian, j);
        row := StorePair(row, j, colors[j], colors[j + 1], littleEndian);
        j := j + 2;
      }
      if j < width {
        assert !InPair(width, misaligned, j);
        row := row[j := colors[j]];
        j := j + 1;
      }
    }
  }

  /** One row of fill_plasma: every pixel of `line` receives the colour computed for it. */
  method FillRow(tab: seq<int>, pal: seq<nat>, base: int, xt10: Fixed, line: seq<nat>,
                 misaligned: bool, littleEndian: bool)
    returns (row: seq<nat>)
    requires ValidTables(tab, pal)
    requires -2 * FIXED_ONE <= base <= 2 * FIXED_ONE
    ensures |row| == |line|
    ensures forall k :: 0 <= k < |row| ==>
              row[k] == ColumnColor(tab, pal, base, xt10, StoredValue(|line|, misaligned, littleEndian, k))
  {
    var colors := RowColors(tab, pal, base, xt10, |line|);
    row := StoreRow(line, colors, misaligned, littleEndian);
    forall k | 0 <= k < |row|
      ensures row[k] == ColumnColor(tab, pal, base, xt10, StoredValue(|line|, misaligned, littleEndian, k))
    {
      StoredValuePermutes(|line|, misaligned, littleEndian, k);
    }
  }

  /** The two pixels of the paired store at offset j receive the values j and j + 1, swapped on a little-endian machine. */
  lemma PairStored(width: nat, misaligned: bool, littleEndian: bool, j: nat)
    requires Lead(width, misaligned) <= j && j + 2 <= width
    requires (j - Lead(width, misaligned)) % 2 == 0
    ensures StoredValue(width, misaligned, littleEndian, j) == (if littleEndian then j + 1 else j)
    ensures StoredValue(width, misaligned, littleEndian, j + 1) == (if littleEndian then j else j + 1)
  {
    var lead := Lead(width, misaligned);
    assert InPair(width, misaligned, j) && InPair(width, misaligned, j + 1);
  }

  /** The 16-bit words per row: the stride in bytes halved. */
  function RowWords(info: BitmapInfo): nat
  {
    info.stride / 2
  }

  /** Whether word i of the bitmap is a pixel fill_plasma writes. */
  predicate Written(info: BitmapInfo, i: nat)
  {
    var half := RowWords(info);
    half > 0 && i / half < info.height && i % half < info.width
  }

  /** Whether row y does not start on a 4-byte boundary (`((uint32_t)line & 3) != 0`). */
  predicate Misaligned(t: Target, y: nat)
  {
    (t.addr + y * t.info.stride) % 4 != 0
  }

  /** The colour fill_plasma leaves at pixel k of row y. */
  function PlasmaPixel(tab: seq<int>, pal: seq<nat>, t: Target, yt1: Fixed, xt10: Fixed, y: nat, k: nat): (c: nat)
    requires ValidTables(tab, pal)
    ensures c < 0x1_0000
  {
    var w := t.info.width;
    ColumnColor(tab, pal, RowBase(tab, yt1, y), xt10, StoredValue(w, Misaligned(t, y), t.littleEndian, k))
  }

  /** Word i lies in the pixels of row y exactly when it is a written word of that row. */
  lemma RowSlot(i: nat, half: nat, y: nat, width: nat)
    requires 0 < half && width <= half
    ensures (y * half <= i < y * half + width) <==> (i / half == y && i % half < width)
    ensures y * half <= i < y * half + width ==> i % half == i - y * half
  {
    var q, r := i / half, i % half;
    assert i == q * half + r;
    if y * half <= i < y * half + width {
      DivModUnique(i, half, y, i - y * half);
    }
  }

  /** The bitmap after the first y rows, where `f(y, k)` is the colour of pixel k of row y:
      the pixels of those rows hold their colours, every other word still holds what
      `pixels` held. */
  predicate FilledRows(f: (nat, nat) -> nat, info: BitmapInfo, pixels: seq<nat>, out: seq<nat>, y: nat)
  {
    var half := RowWords(info);
    && |out| == |pixels|
    && forall i :: 0 <= i < |out| ==>
         out[i] == (if Written(info, i) && i / half < y then f(i / half, i % half) else pixels[i])
  }

  /** Before the first row nothing is filled. */
  lemma FilledNone(f: (nat, nat) -> nat, info: BitmapInfo, pixels: seq<nat>)
    ensures FilledRows(f, info, pixels, pixels, 0)
  {
    var half := RowWords(info);
    forall i | 0 <= i < |pixels| && half > 0
      ensures i / half >= 0
    {
      DivNonNeg(i, half);
    }
  }

  /** Writing row y over the words from `y * RowWords(info)` extends the filled rows by one. */
  lemma SpliceRow(f: (nat, nat) -> nat, info: BitmapInfo, pixels: seq<nat>, prev: seq<nat>, row: seq<nat>, y: nat)
    requires info.width <= RowWords(info) && y < info.height
    requires FilledRows(f, info, pixels, prev, y)
    requires y * RowWords(info) + info.width <= |prev| && |row| == info.width
    requires forall k :: 0 <= k < |row| ==> row[k] == f(y, k)
    ensures FilledRows(f, info, pixels, prev[..y * RowWords(info)] + row + prev[y * RowWords(info) + info.width..], y + 1)
  {
    var half, w := RowWords(info), info.width;
    var start := y * half;
    var out := prev[..start] + row + prev[start + w..];
    forall i | 0 <= i < |out|
      ensures out[i] == (if Written(info, i) && i / half < y + 1 then f(i / half, i % half) else pixels[i])
    {
      SpliceIndex(prev, row, start, i);
      assert prev[i] == (if Written(info, i) && i / half < y then f(i / half, i % half) else pixels[i]);
      SpliceAt(f, info, row, y, i, pixels[i], prev[i], out[i]);
    }
    assert |out| == |pixels|;
  }

  /** One word of a spliced row: `before` is word i before the splice and `v` after it. */
  lemma SpliceAt(f: (nat, nat) -> nat, info: BitmapInfo, row: seq<nat>, y: nat, i: nat, pixel: nat, before: nat, v: nat)
    requires info.width <= RowWords(info) && y < info.height && |row| == info.width
    requires forall k :: 0 <= k < |row| ==> row[k] == f(y, k)
    requires before == (if Written(info, i) && i / RowWords(info) < y then f(i / RowWords(info), i % RowWords(info)) else pixel)
    requires var start := y * RowWords(info);
      v == (if start <= i < start + |row| then row[i - start] else before)
    ensures v == (if Written(info, i) && i / RowWords(info) < y + 1 then f(i / RowWords(info), i % RowWords(info)) else pixel)
  {
    WrittenInRow(info, y, i);
  }

  /** Word i of a row spliced in at `start` comes from the row inside it and from `prev` elsewhere. */
  lemma SpliceIndex(prev: seq<nat>, row: seq<nat>, start: nat, i: nat)
    requires start + |row| <= |prev| && i < |prev|
    ensures var out := prev[..start] + row + prev[start + |row|..];
      && |out| == |prev|
      && out[i] == (if start <= i < start + |row| then row[i - start] else prev[i])
  {
  }

  /** Word i lies in the written part of row y exactly when it is one of the `width` words from `y * RowWords(info)`. */
  lemma WrittenInRow(info: BitmapInfo, y: nat, i: nat)
    requires info.width <= RowWords(info)
    ensures var start := y * RowWords(info);
      && (start <= i < start + info.width ==> Written(info, i) || y >= info.height)
      && (start <= i < start + info.width ==> i / RowWords(info) == y && i % RowWords(info) == i - start)
      && (Written(info, i) && i / RowWords(info) == y ==> start <= i < start + info.width)
  {
    var half := RowWords(info);
    if half > 0 {
      RowSlot(i, half, y, info.width);
    }
  }

  /** The `base` of row y (line 201): the table entries at the fractions of
      `yt1 + y * YT1_INCR` and `yt1 + y * YT2_INCR`. */
  method RowValue(tab: seq<int>, yt1: Fixed, y: nat, ya: Fixed, yb: Fixed) returns (base: int)
    requires SineTable(tab)
    requires ya == Phase(yt1, YT1_INCR, y) && yb == Phase(yt1, YT2_INCR, y)
    ensures base == RowBase(tab, yt1, y)
    ensures base == tab[((yt1 + y * YT1_INCR) % FIXED_ONE) / ANGLE_STEP]
                    + tab[((yt1 + y * YT2_INCR) % FIXED_ONE) / ANGLE_STEP]
  {
    base := FixedSin(tab, ya) + FixedSin(tab, yb);
    PhaseSine(tab, yt1, YT1_INCR, y, ya);
    PhaseSine(tab, yt1, YT2_INCR, y, yb);
  }

  /** Row y of the frame: the words of `line` receive the row's pixels. */
  method FillRowAt(tab: seq<int>, pal: seq<nat>, t: Target, yt1: Fixed, xt10: Fixed, y: nat, base: int, line: seq<nat>)
    returns (row: seq<nat>)
    requires ValidTables(tab, pal)
    requires base == RowBase(tab, yt1, y) && |line| == t.info.width
    ensures |row| == |line|
    ensures forall k :: 0 <= k < |row| ==> row[k] == PlasmaPixel(tab, pal, t, yt1, xt10, y, k)
  {
    row := FillRow(tab, pal, base, xt10, line, Misaligned(t, y), t.littleEndian);
  }

  /** Row y of a bitmap of `height` rows, `half` words apart, lies inside its `n` words. */
  lemma RowFits(y: nat, height: nat, half: nat, width: nat, n: nat)
    requires y < height && (height - 1) * half + width <= n
    ensures 0 <= y * half && y * half + width <= n
  {
    MulMonotone(y, height - 1, half);
  }

  /** Row y written into the bitmap `out` (the `line` pointer at byte offset y * stride). */
  method WriteRow(tab: seq<int>, pal: seq<nat>, t: Target, yt1: Fixed, xt10: Fixed, f: (nat, nat) -> nat,
                  pixels: seq<nat>, out: seq<nat>, y: nat, base: int)
    returns (out': seq<nat>)
    requires ValidTables(tab, pal)
    requires forall a: nat, b: nat :: f(a, b) == PlasmaPixel(tab, pal, t, yt1, xt10, a, b)
    requires t.info.width <= RowWords(t.info) && y < t.info.height
    requires (t.info.height - 1) * RowWords(t.info) + t.info.width <= |out|
    requires base == RowBase(tab, yt1, y)
    requires FilledRows(f, t.info, pixels, out, y)
    ensures FilledRows(f, t.info, pixels, out', y + 1)
  {
    var info := t.info;
    var half := RowWords(info);
    var start := y * half;
    RowFits(y, info.height, half, info.width, |out|);
    var row := FillRowAt(tab, pal, t, yt1, xt10, y, base, out[start..start + info.width]);
    SpliceRow(f, info, pixels, out, row, y);
    out' := out[..start] + row + out[start + info.width..];
  }

  /** fill_plasma: every pixel of the width x height rectangle receives its plasma colour,
      and every other word (the padding beyond `width` in each stride) is left as it was. */
  method FillPlasma(tab: seq<int>, pal: seq<nat>, t: Target, pixels: seq<nat>, yt1: Fixed, xt10: Fixed)
    returns (out: seq<nat>)
    requires ValidTables(tab, pal)
    requires t.addr % 2 == 0 && t.info.stride % 2 == 0 && t.info.width <= RowWords(t.info)
    requires t.info.height == 0 || (t.info.height - 1) * RowWords(t.info) + t.info.width <= |pixels|
    ensures |out| == |pixels|
    ensures forall i :: 0 <= i < |out| ==>
              out[i] == (if Written(t.info, i)
                         then PlasmaPixel(tab, pal, t, yt1, xt10, i / RowWords(t.info), i % RowWords(t.info))
                         else pixels[i])
  {
    var info := t.info;
    var half := RowWords(info);
    var f: (nat, nat) -> nat := (y: nat, k: nat) => PlasmaPixel(tab, pal, t, yt1, xt10, y, k);
    out := pixels;
    var ya, yb := yt1, yt1;
    var y := 0;
    assert ya == Phase(yt1, YT1_INCR, 0) && yb == Phase(yt1, YT2_INCR, 0);
    FilledNone(f, info, pixels);
    while y < info.height
      invariant y <= info.height
      invariant ya == Phase(yt1, YT1_INCR, y) && yb == Phase(yt1, YT2_INCR, y)
      invariant FilledRows(f, info, pixels, out, y)
    {
      var base := RowValue(tab, yt1, y, ya, yb);
      ya := Advance(yt1, YT1_INCR, y, ya);
      yb := Advance(yt1, YT2_INCR, y, yb);
      out := WriteRow(tab, pal, t, yt1, xt10, f, pixels, out, y, base);
      y := y + 1;
    }
  }

  /** The alignment of a row only moves values around on a little-endian machine:
      on a big-endian one, pixel k of row y is the k-th value computed for it. */
  lemma BigEndianInOrder(tab: seq<int>, pal: seq<nat>, t: Target, yt1: Fixed, xt10: Fixed, y: nat, k: nat)
    requires ValidTables(tab, pal)
    requires !t.littleEndian && k < t.info.width
    ensures PlasmaPixel(tab, pal, t, yt1, xt10, y, k) == ColumnColor(tab, pal, RowBase(tab, yt1, y), xt10, k)
  {
    StoredValuePermutes(t.info.width, Misaligned(t, y), t.littleEndian, k);
  }

  /** The `>> 2` of the compiled path and the `/ 4` of the disabled `#else` path pick the
      same colour for every non-negative intensity. */
  lemma ShiftMatchesDivisionWhenNonNegative(pal: seq<nat>, ii: Fixed)
    requires |pal| == PALETTE_SIZE && forall i :: 0 <= i < |pal| ==> pal[i] < 0x1_0000
    requires 0 <= ii <= 4 * FIXED_ONE
    ensures Shade(pal, ii) == PaletteFromFixed(pal, CDiv(ii, 4))
  {
    Pow2Values();
  }

  /** ... but not for negative ones: `-1021 >> 2` is -256, palette index 1, while
      `-1021 / 4` truncates to -255, palette index 0. */
  lemma ShiftDiffersFromDivision()
    ensures Shr(-1021, 2) == -256 && CDiv(-1021, 4) == -255
    ensures PaletteIndex(-256) == 1 && PaletteIndex(-255) == 0
  {
    Pow2Values();
    DivModUnique(-1021, 4, -256, 3);
  }
}
