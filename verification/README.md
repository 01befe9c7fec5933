# Plasma renderer and frame statistics, modelled in Dafny

This project models the integer core of `plasma.c`, an Android NDK sample that
draws an animated "plasma" into an RGB565 bitmap every frame. Alongside the
drawing, it keeps rolling statistics on render and frame times.

The model has seven modules:

- `Bits` (bits.dfy): bitwise `&` and `|` on naturals, powers of two, and the
  division and modulo facts the other modules rest on.
- `Int32` (int32.dfy): `int32_t` arithmetic.
  - Overflow wraps in two's complement.
  - A cast to `uint32_t` is reduction modulo 2^32.
  - `>>` on a signed value is an arithmetic shift, rounding toward minus infinity.
  - C's `/` truncates toward zero (`CDiv`).
- `FixedPoint` (fixed.dfy): the `Fixed` 16.16 type and the integer FIXED_* macros.
- `Angles` (angle.dfy): the ANGLE_* macros and the table lookups
  - `angle_sin` and `angle_cos`;
  - `fixed_sin` and `fixed_cos`, for which one Fixed unit is a full turn.
- `Palette` (palette.dfy): `make565`, the four colour bands of `init_palette`,
  and the abs/clamp/fraction/shift lookup of `palette_from_fixed`.
- `Plasma` (plasma.dfy): `fill_plasma` on the compiled `OPTIMIZE_WRITES` path.
  - The row and column phase counters wrap in 32 bits.
  - A row is written as an optional single pixel, then pairs of pixels packed
    into one 32-bit store, then an optional last pixel.
  - The bitmap is a sequence of 16-bit words and rows are `stride` bytes apart.
  - The byte address of the bitmap and the machine's byte order are parameters
    (`Target`).
- `Stats` (stats.dfy): `stats_init`, `stats_startFrame` and `stats_endFrame`.
  - Samples go into a 200-slot ring buffer.
  - A window is flushed once 1500 ms have passed since it opened.
  - `Valid` is the buffer invariant every operation keeps. A buffer that is not
    yet full starts at slot 0.

Clock readings (`now_ms()`) are parameters. The sine table that
`init_angles` fills from the C library's `sin()` is also a parameter: any
513-entry sequence bounded by ±FIXED_ONE (`SineTable`).

Some behaviour of the code is easy to misread; the model states it as written:

- **`>> 2` versus `/ 4`.** The compiled path (plasma.c lines 224, 237-238 and
  246) scales the intensity with `>> 2`. The disabled `#else` path (line 259)
  uses `/ 4`, and the two might be expected to agree. They pick the same colour
  for every non-negative intensity (`ShiftMatchesDivisionWhenNonNegative`), but
  not for every negative one (`ShiftDiffersFromDivision`).
- **Paired stores and byte order.** The comment at line 212 presents the paired
  32-bit store as an optimisation of the writes. The store at lines 237-240
  packs `(first << 16) | second`, so on a little-endian machine each stored
  pair of pixels ends up swapped in memory relative to the disabled path.
  - `StoredValue` says which computed value lands at each pixel.
  - `StoredValuePermutes` proves that every value is still written exactly once
    within its row.
  - `BigEndianInOrder` proves that on a big-endian machine the pixels are in
    computation order.
- **Green channel of `make565`.** The mask `0x03e0` keeps only five green bits,
  at bits 5..9. Bit 10, the top bit of RGB565's six-bit green field, is never
  set (`Make565`).
- **`palette_from_fixed(INT32_MIN)`.** The negation wraps, so the value stays
  negative and the function reads entry 0, not entry 255 (`PaletteIndex`).

## Model

| member | source | states |
|---|---|---|
| FixedPoint.FromInt | tests/inputs/aa/bb/cc/plasma.c:58 | FIXED_FROM_INT always yields a whole Fixed (no fraction bits), and for integers of 16 signed bits it is exactly n scaled by 2^16 |
| FixedPoint.ToInt | tests/inputs/aa/bb/cc/plasma.c:59 | FIXED_TO_INT is the floor of x / 2^16: n * 2^16 <= x < (n + 1) * 2^16, and the result fits 16 signed bits |
| FixedPoint.Frac | tests/inputs/aa/bb/cc/plasma.c:70 | FIXED_FRAC of any Fixed, negative ones included, lies in [0, FIXED_ONE) and is x modulo FIXED_ONE |
| FixedPoint.Trunc | tests/inputs/aa/bb/cc/plasma.c:71 | FIXED_TRUNC leaves a whole Fixed and FIXED_TRUNC(x) + FIXED_FRAC(x) == x for every x |
| FixedPoint.Mul | tests/inputs/aa/bb/cc/plasma.c:64 | when the shifted 64-bit product fits in 32 bits, FIXED_MUL is the product rounded down: r * 2^16 <= x * y < (r + 1) * 2^16 |
| FixedPoint.Div | tests/inputs/aa/bb/cc/plasma.c:65 | when the quotient fits in 32 bits, FIXED_DIV is x * 2^16 / y truncated toward zero: the remainder has the sign of the dividend and is smaller than abs(y) |
| FixedPoint.Average | tests/inputs/aa/bb/cc/plasma.c:56 | when x + y does not overflow, FIXED_AVERAGE is half the sum rounded toward minus infinity (2r <= x + y <= 2r + 1), so it lies between x and y |
| FixedPoint.Half | tests/inputs/aa/bb/cc/plasma.c:67 | FIXED_DIV2 rounds toward minus infinity: 2r <= x <= 2r + 1 |
| FixedPoint.ToIntFromInt | tests/inputs/aa/bb/cc/plasma.c:58-59 | FIXED_TO_INT(FIXED_FROM_INT(n)) == n for every n with abs(n) below 2^15 |
| FixedPoint.FromIntToInt | tests/inputs/aa/bb/cc/plasma.c:58-71 | FIXED_FROM_INT(FIXED_TO_INT(x)) == FIXED_TRUNC(x): the round trip from a Fixed keeps exactly its integer bits |
| FixedPoint.MulDivByOne | tests/inputs/aa/bb/cc/plasma.c:64-65 | multiplying or dividing any Fixed by FIXED_ONE gives it back |
| Angles.FromFixed | tests/inputs/aa/bb/cc/plasma.c:92 | ANGLE_FROM_FIXED is the floor of x / 128, so the angle's step contains x |
| Angles.ToFixed | tests/inputs/aa/bb/cc/plasma.c:93 | for angles below 2^24 in magnitude, ANGLE_TO_FIXED is a multiple of 128 that ANGLE_FROM_FIXED maps back to the same angle |
| Angles.SinIndex | tests/inputs/aa/bb/cc/plasma.c:112 | the unsigned mask picks slot a mod 512 for every angle, negative ones included, so the 513th table entry is never read |
| Angles.AngleSin | tests/inputs/aa/bb/cc/plasma.c:110-113 | angle_sin(a) is table entry a mod 512 |
| Angles.AngleCos | tests/inputs/aa/bb/cc/plasma.c:115-118 | angle_cos(a) is table entry (a + 128) mod 512, even when a + ANGLE_PI2 overflows |
| Angles.FixedSin | tests/inputs/aa/bb/cc/plasma.c:120-123 | fixed_sin(f) depends only on the fraction of f: it is entry (f mod 2^16) / 128 |
| Angles.FixedCos | tests/inputs/aa/bb/cc/plasma.c:125-128 | fixed_cos(f) is entry ((f mod 2^16) / 128 + 128) mod 512 |
| Angles.AngleSinPeriodic | tests/inputs/aa/bb/cc/plasma.c:110-113 | angle_sin has period ANGLE_2PI: adding any number of whole turns leaves the result unchanged |
| Angles.AngleCosShift | tests/inputs/aa/bb/cc/plasma.c:115-118 | angle_cos(a) == angle_sin(a + ANGLE_PI2), with the sum wrapped when it overflows |
| Angles.FixedSinOfWrap | tests/inputs/aa/bb/cc/plasma.c:120-123 | a phase that wrapped in 32 bits reads the same entry as the exact, unwrapped phase |
| Angles.FixedSinPeriod | tests/inputs/aa/bb/cc/plasma.c:120-123 | fixed_sin has period FIXED_ONE (one unit is a full turn, not a radian) |
| Angles.FixedCosPeriod | tests/inputs/aa/bb/cc/plasma.c:125-128 | fixed_cos has period FIXED_ONE |
| Angles.FixedCosQuarterTurn | tests/inputs/aa/bb/cc/plasma.c:120-128 | fixed_cos(f) == fixed_sin(f + FIXED_ONE / 4) |
| Palette.Make565 | tests/inputs/aa/bb/cc/plasma.c:140-145 | make565 keeps bits 3..7 of each channel: red in bits 11..15, green in bits 5..9, blue in bits 0..4; the result fits 16 bits and bit 10 is never set |
| Palette.BandOffset | tests/inputs/aa/bb/cc/plasma.c:152 | jj = n*4*255/256 is n * 255 / 64 rounded down, so it never exceeds 251 |
| Palette.BandOffsetSteps | tests/inputs/aa/bb/cc/plasma.c:152 | within a band jj starts at 0, ends at 251 and rises by 3 or 4 per entry |
| Palette.PaletteEntry | tests/inputs/aa/bb/cc/plasma.c:147-170 | every palette entry is a 16-bit RGB565 value with bit 10 clear |
| Palette.FillBand | tests/inputs/aa/bb/cc/plasma.c:151-169 | one band loop extends a palette whose entries are all correct by 64 more correct entries |
| Palette.BandEntry | tests/inputs/aa/bb/cc/plasma.c:152-168 | the jj a band loop computes for entry nn is that entry's offset within its band, so the loop writes entry nn's colour |
| Palette.InitPalette | tests/inputs/aa/bb/cc/plasma.c:147-170 | init_palette fills all 256 entries, entry nn with band nn / 64's make565 formula at jj = (nn mod 64)*4*255/256 |
| Palette.PaletteIndex | tests/inputs/aa/bb/cc/plasma.c:174-177 | the index palette_from_fixed reads is below 256; it is the top 8 fraction bits of abs(x) clamped to FIXED_ONE - 1, and 0 for INT32_MIN |
| Palette.PaletteFromFixed | tests/inputs/aa/bb/cc/plasma.c:172-178 | palette_from_fixed always returns one of the 256 palette entries |
| Palette.PaletteSymmetric | tests/inputs/aa/bb/cc/plasma.c:174 | x and -x give the same colour for every x except INT32_MIN |
| Palette.PaletteSaturates | tests/inputs/aa/bb/cc/plasma.c:175 | every intensity of magnitude at least FIXED_ONE gives the last entry |
| Palette.PaletteIndexMonotone | tests/inputs/aa/bb/cc/plasma.c:174-176 | the index never decreases as abs(x) grows |
| Plasma.PhaseClosedForm | tests/inputs/aa/bb/cc/plasma.c:205-206 | after n executions of `+= incr` a phase counter holds start + n * incr wrapped to 32 bits |
| Plasma.Advance | tests/inputs/aa/bb/cc/plasma.c:221-222 | after the (n + 1)-th `+= incr` the counter holds start + (n + 1) * incr wrapped to 32 bits, however often the sum overflowed on the way |
| Plasma.RowBase | tests/inputs/aa/bb/cc/plasma.c:201 | the base of row y is the sum of the two row sines taken y steps past the start, before the counters advance, and lies within 2 * FIXED_ONE of zero |
| Plasma.RowValue | tests/inputs/aa/bb/cc/plasma.c:201 | the base of row y, computed from the live counters, is the sum of the table entries at the fractions of yt1 + y * YT1_INCR and yt1 + y * YT2_INCR: the counters start together and only the fraction of the exact phase matters |
| Plasma.Intensity | tests/inputs/aa/bb/cc/plasma.c:229 | a pixel's intensity, base plus two column sines, lies within 4 * FIXED_ONE of zero |
| Plasma.Shade | tests/inputs/aa/bb/cc/plasma.c:224 | `palette_from_fixed(ii >> 2)` is a 16-bit palette entry |
| Plasma.IntensityClosedForm | tests/inputs/aa/bb/cc/plasma.c:229-235 | the intensity of column j is base plus the table entries at the fractions of xt10 + j * XT1_INCR and xt10 + j * XT2_INCR, whatever the counters wrapped through |
| Plasma.RowColors | tests/inputs/aa/bb/cc/plasma.c:202-248 | the k-th value of every row uses phases xt10 + k * XT1_INCR and xt10 + k * XT2_INCR: the counters restart on each row |
| Plasma.StoredValuePermutes | tests/inputs/aa/bb/cc/plasma.c:237-240 | every pixel of a row receives a value computed for that row, no value is stored twice, and the placement is the identity on a big-endian machine |
| Plasma.PackPair | tests/inputs/aa/bb/cc/plasma.c:237-238 | the word `(first << 16) or second` built from two 16-bit entries fits 32 bits and holds first in its high half and second in its low half |
| Plasma.Store32 | tests/inputs/aa/bb/cc/plasma.c:240 | a 32-bit store writes two adjacent pixels and nothing else; their halves hold the word in the machine's byte order |
| Plasma.StorePair | tests/inputs/aa/bb/cc/plasma.c:237-241 | a paired store puts the first value at the lower pixel on a big-endian machine and at the higher one on a little-endian one |
| Plasma.PairStored | tests/inputs/aa/bb/cc/plasma.c:228-242 | the pixels of each pair receive values j and j + 1, swapped on a little-endian machine |
| Plasma.StoreRow | tests/inputs/aa/bb/cc/plasma.c:215-248 | the lead pixel, the paired loop and the tail pixel together write every pixel of the row, each with the value StoredValue assigns it |
| Plasma.FillRow | tests/inputs/aa/bb/cc/plasma.c:211-249 | every pixel of a row receives the colour computed for its position in computation order |
| Plasma.FillRowAt | tests/inputs/aa/bb/cc/plasma.c:200-249 | row y is written with exactly width pixels, each with its plasma colour |
| Plasma.WriteRow | tests/inputs/aa/bb/cc/plasma.c:200-264 | writing row y at word offset y * stride / 2 fills one more row and leaves every word outside it unchanged |
| Plasma.FillPlasma | tests/inputs/aa/bb/cc/plasma.c:188-266 | every pixel of the width x height rectangle gets its plasma colour, and every other word, including the padding beyond width in each stride, keeps its old value |
| Plasma.BigEndianInOrder | tests/inputs/aa/bb/cc/plasma.c:237-240 | on a big-endian machine pixel k of a row is the k-th value computed for it, whatever the row's alignment |
| Plasma.ShiftMatchesDivisionWhenNonNegative | tests/inputs/aa/bb/cc/plasma.c:251-260 | for non-negative intensities the disabled `/ 4` path picks the same colour as `>> 2` |
| Plasma.ShiftDiffersFromDivision | tests/inputs/aa/bb/cc/plasma.c:246-259 | intensity -1021 shows the two paths differ: `>> 2` reads entry 1 and `/ 4` reads entry 0 |
| Stats.WrapSlot | tests/inputs/aa/bb/cc/plasma.c:346-347 | one conditional subtraction of 200 reduces any index below 400 to its slot modulo 200 |
| Stats.StatsInit | tests/inputs/aa/bb/cc/plasma.c:287-294 | stats_init leaves a valid, empty buffer whose previous frame ended at the clock reading and whose window opened at time 0 |
| Stats.StartFrame | tests/inputs/aa/bb/cc/plasma.c:296-300 | stats_startFrame records the frame start and changes nothing else: every slot, firstFrame, numFrames, firstTime and lastTime are kept |
| Stats.Push | tests/inputs/aa/bb/cc/plasma.c:345-358 | the sample goes into slot (firstFrame + numFrames) mod 200 and no other slot changes; numFrames grows until 200, then firstFrame advances modulo 200 instead; the buffer stays valid |
| Stats.PushRetained | tests/inputs/aa/bb/cc/plasma.c:345-358 | after a push the retained frames are the old ones plus the sample; the oldest one is dropped when the buffer was full |
| Stats.PushAllRetained | tests/inputs/aa/bb/cc/plasma.c:345-358 | after any sequence of pushes the buffer holds the most recent 200 samples, oldest first |
| Stats.Flush | tests/inputs/aa/bb/cc/plasma.c:340-342 | the flush empties the buffer and opens a new window at now |
| Stats.Record | tests/inputs/aa/bb/cc/plasma.c:302-361 | after stats_endFrame the buffer is valid and lastTime is now; if the window was over, the buffer holds just the new sample (numFrames == 1) and the window opens at now; otherwise the sample is appended as in a push |
| Stats.EndFrame | tests/inputs/aa/bb/cc/plasma.c:302-361 | a report is produced exactly when 1500 ms have passed since the window opened and the window held a frame; as written, it summarises numFrames + 1 slots from firstFrame and divides by numFrames |
| Stats.EndFrameCorrected | tests/inputs/aa/bb/cc/plasma.c:302-361 | corrected stats_endFrame: the record evolves exactly as in EndFrame, the report covers exactly the retained frames, and each average lies between its minimum and maximum |
| Stats.RecordSlot | tests/inputs/aa/bb/cc/plasma.c:345-350 | stats_endFrame writes only the slot after the newest frame, or slot 0 after a flush |
| Stats.MinOfIsMinimum | tests/inputs/aa/bb/cc/plasma.c:324 | the running minimum is one of the values and bounds all of them from below |
| Stats.MaxOfIsMaximum | tests/inputs/aa/bb/cc/plasma.c:325 | the running maximum is one of the values and bounds all of them from above |
| Stats.PrefixStep | tests/inputs/aa/bb/cc/plasma.c:323-330 | folding value i into the running minimum, maximum and sum of the first i values, as the loop body does with its two comparisons and one addition, gives the minimum, maximum and sum of the first i + 1 values |
| Stats.ReadFirst | tests/inputs/aa/bb/cc/plasma.c:316-318 | after the first read, the running values of each timing are the minimum, maximum and sum of the window's first frame |
| Stats.NextSlot | tests/inputs/aa/bb/cc/plasma.c:320-322 | each `nn += 1` plus wrap gives the next ring slot, always in [0, 200) |
| Stats.ReadSlot | tests/inputs/aa/bb/cc/plasma.c:323-330 | after reading the i-th slot, the running values of each timing are the minimum, maximum and sum of the window's first i + 1 frames |
| Stats.ScanWindow | tests/inputs/aa/bb/cc/plasma.c:316-331 | the scan reads extra + 1 consecutive ring slots from firstFrame, and its running values end as the minimum, maximum and sum of each timing over exactly those slots |
| Stats.SummaryInRange | tests/inputs/aa/bb/cc/plasma.c:332-333 | when the divisor is the number of frames scanned, each average lies between its minimum and maximum |
| Stats.SummarizeAsWritten | tests/inputs/aa/bb/cc/plasma.c:316-333 | as written, the summary covers numFrames + 1 slots but divides by numFrames |
| Stats.AsWrittenAverageExceedsMaximum | tests/inputs/aa/bb/cc/plasma.c:316-333 | a reachable run of four frames whose last end of frame reports an average render time of 100 ms against a maximum of 50 ms, where the corrected report averages 50 ms |
| Stats.Summarize | tests/inputs/aa/bb/cc/plasma.c:312-333 | corrected summary: it covers exactly the retained frames, and min <= avg <= max holds for both timings |

## Left out

- The JNI entry point (plasma.c lines 363-399).
  - It covers bitmap info, locking and unlocking, format checks, logging, and
    the one-time `init` flag: these are foreign calls and I/O.
  - A failed `AndroidBitmap_lockPixels` only logs and does not return, so the
    model makes no "no write on failure" claim.
- `now_ms`/`gettimeofday`: clock readings are parameters.
  - Times are exact reals, so the rounding of `double` arithmetic is not modelled.
- `init_angles` and `sin()`: the table contents are a parameter (`SineTable`).
  Only index, range and periodicity facts are proved.
- FIXED_FROM_FLOAT, FIXED_TO_FLOAT, FIXED_FROM_INT_FLOAT, ANGLE_FROM_FLOAT and
  ANGLE_TO_FLOAT: these are floating-point conversions.
  - The starting phases of `fill_plasma` (lines 190-192) are parameters.
  - The increments YT1_INCR, YT2_INCR, XT1_INCR and XT2_INCR are the values the
    conversions produce (655, 402, 378, 270).
- The `LOGI` call of `stats_endFrame`: frames per second are `1000./avg` in
  floating point and the output is text. The model returns the report's six
  values instead.
- Plasma.FillPlasma requires even byte addresses and strides, because the
  16-bit pixel type demands them. It also requires `width <= stride / 2` and a
  pixel buffer that holds the last row's `width` pixels. The
  `AndroidBitmapInfo` and the buffer `AndroidBitmap_lockPixels` hands out
  guarantee both, and the code does not check them.
- Palette.Make565 requires channel values for which the left shifts stay
  inside `int`. Every call site passes values in 0..255.
- FixedPoint.Mul, FixedPoint.Div and FixedPoint.Average state their arithmetic
  meaning only when the intermediate result fits 32 bits. Beyond that the model
  wraps but states nothing more.

## Findings

| source | as written | input that shows it | evidently intended | confidence | as-written member | corrected member |
|---|---|---|---|---|---|---|
| tests/inputs/aa/bb/cc/plasma.c:316-333 | the summary loop reads slot firstFrame and then numFrames more slots, numFrames + 1 in all, and divides the sums by numFrames | stats_init at 0, frames over 1000-1600, 1650-1700, 3150-3200 and 4700-4750 ms: the third call flushes, leaving numFrames 1 and a stale slot 1, so the fourth call reports an average render time of 100 ms against a maximum of 50 ms | summarise exactly the numFrames retained frames, so that min <= avg <= max | high, not executed | Stats.SummarizeAsWritten, Stats.EndFrame, Stats.AsWrittenAverageExceedsMaximum | Stats.Summarize, Stats.EndFrameCorrected |
