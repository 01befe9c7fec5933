/** The frame statistics of plasma.c: a ring buffer of the last 200 frame
    timings, flushed into a min/max/average report whenever 1500 ms have
    passed since the current window opened.

    Timestamps are the milliseconds `now_ms()` returns, modelled as exact
    reals; the clock is a parameter of every operation that reads it. The
    `Stats` record is a static variable in the source, so the slots and the
    frame start time begin at zero. */
module Stats {
  import opened Bits

  const MAX_FRAME_STATS: int := 200
  const MAX_PERIOD_MS: real := 1500.0

  datatype FrameStats = FrameStats(renderTime: real, frameTime: real)

  datatype Stats = Stats(
    firstTime: real,
    lastTime: real,
    frameTime: real,
    firstFrame: int,
    numFrames: int,
    frames: seq<FrameStats>)

  datatype Option<T> = None | Some(value: T)

  /** What one flush logs: minimum, maximum and average of both timings. */
  datatype Report = Report(
    minRender: real, maxRender: real, avgRender: real,
    minFrame: real, maxFrame: real, avgFrame: real)

  /** The result of `stats_endFrame`: the new record and the report it logged, if any. */
  datatype Outcome = Outcome(stats: Stats, report: Option<Report>)

  /** The ring buffer's shape. A window only starts moving once the buffer is
      full, so a buffer that is not full starts at slot 0. */
  predicate Valid(s: Stats)
  {
    && |s.frames| == MAX_FRAME_STATS
    && 0 <= s.numFrames <= MAX_FRAME_STATS
    && 0 <= s.firstFrame < MAX_FRAME_STATS
    && (s.numFrames < MAX_FRAME_STATS ==> s.firstFrame == 0)
  }

  /** Below twice the capacity, one conditional subtraction is reduction modulo the capacity. */
  lemma ModSmall(a: int)
    requires 0 <= a < 2 * MAX_FRAME_STATS
    ensures a % MAX_FRAME_STATS == if a < MAX_FRAME_STATS then a else a - MAX_FRAME_STATS
  {
    if a < MAX_FRAME_STATS {
      DivModUnique(a, MAX_FRAME_STATS, 0, a);
    } else {
      DivModUnique(a, MAX_FRAME_STATS, 1, a - MAX_FRAME_STATS);
    }
  }

  /** `if (nn >= MAX_FRAME_STATS) nn -= MAX_FRAME_STATS;`: the slot index wrapped once. */
  function WrapSlot(nn: int): (r: int)
    requires 0 <= nn < 2 * MAX_FRAME_STATS
    ensures 0 <= r < MAX_FRAME_STATS
    ensures r == nn % MAX_FRAME_STATS
  {
    ModSmall(nn);
    if nn >= MAX_FRAME_STATS then nn - MAX_FRAME_STATS else nn
  }

  /** n slots of a 200-slot buffer starting at slot first, in ring order. */
  function Ring(frames: seq<FrameStats>, first: int, n: nat): (w: seq<FrameStats>)
    requires |frames| == MAX_FRAME_STATS && 0 <= first < MAX_FRAME_STATS
    ensures |w| == n
    ensures forall i :: 0 <= i < n ==> w[i] == frames[(first + i) % MAX_FRAME_STATS]
  {
    seq(n, i requires 0 <= i < n => frames[(first + i) % MAX_FRAME_STATS])
  }

  /** The n slots from firstFrame onwards. */
  function Window(s: Stats, n: nat): seq<FrameStats>
    requires Valid(s)
  {
    Ring(s.frames, s.firstFrame, n)
  }

  /** The frames the buffer currently holds, oldest first. */
  function Retained(s: Stats): (w: seq<FrameStats>)
    requires Valid(s)
    ensures |w| == s.numFrames
  {
    Window(s, s.numFrames)
  }

  /** stats_init: the clock reading becomes the previous frame's end; no frame is held. */
  function StatsInit(now: real): (s: Stats)
    ensures Valid(s)
    ensures s.lastTime == now && s.firstTime == 0.0
    ensures Retained(s) == []
  {
    Stats(0.0, now, 0.0, 0, 0, seq(MAX_FRAME_STATS, _ => FrameStats(0.0, 0.0)))
  }

  /** stats_startFrame: records when rendering of this frame began; every slot,
      the window and the buffer indices are left as they were. */
  function StartFrame(s: Stats, now: real): (r: Stats)
    requires Valid(s)
    ensures Valid(r)
    ensures r.frameTime == now
    ensures Retained(r) == Retained(s)
    ensures r.firstTime == s.firstTime && r.lastTime == s.lastTime
    ensures r.frames == s.frames && r.firstFrame == s.firstFrame && r.numFrames == s.numFrames
  {
    s.(frameTime := now)
  }

  /** Storing one sample (lines 345-358): the slot after the newest is
      overwritten; a full buffer drops its oldest frame instead of growing. */
  function Push(s: Stats, x: FrameStats): (r: Stats)
    requires Valid(s)
    ensures Valid(r)
    ensures r.frames[(s.firstFrame + s.numFrames) % MAX_FRAME_STATS] == x
    ensures forall i :: 0 <= i < MAX_FRAME_STATS && i != (s.firstFrame + s.numFrames) % MAX_FRAME_STATS ==>
              r.frames[i] == s.frames[i]
    ensures s.numFrames < MAX_FRAME_STATS ==> r.numFrames == s.numFrames + 1
    ensures s.numFrames == MAX_FRAME_STATS ==>
              r.numFrames == MAX_FRAME_STATS && r.firstFrame == (s.firstFrame + 1) % MAX_FRAME_STATS
    ensures r.firstTime == s.firstTime && r.lastTime == s.lastTime && r.frameTime == s.frameTime
  {
    var nn := WrapSlot(s.firstFrame + s.numFrames);
    var frames := s.frames[nn := x];
    if s.numFrames < MAX_FRAME_STATS then
      s.(frames := frames, numFrames := s.numFrames + 1)
    else
      s.(frames := frames, firstFrame := WrapSlot(s.firstFrame + 1))
  }

  /** The retained frames after a push: the new sample is appended, and the
      oldest one falls out when the buffer was already full. */
  lemma PushRetained(s: Stats, x: FrameStats)
    requires Valid(s)
    ensures Retained(Push(s, x)) ==
              if s.numFrames < MAX_FRAME_STATS then Retained(s) + [x] else Retained(s)[1..] + [x]
  {
    if s.numFrames < MAX_FRAME_STATS {
      PushGrows(s, x);
    } else {
      PushRotates(s, x);
    }
  }

  /** Pushing into a buffer that is not full appends at slot numFrames. */
  lemma PushGrows(s: Stats, x: FrameStats)
    requires Valid(s) && s.numFrames < MAX_FRAME_STATS
    ensures Retained(Push(s, x)) == Retained(s) + [x]
  {
    var r, n := Push(s, x), s.numFrames;
    forall i | 0 <= i <= n
      ensures Retained(r)[i] == (Retained(s) + [x])[i]
    {
      ModSmall(i);
    }
  }

  /** Pushing into a full buffer overwrites the oldest slot and moves the start past it. */
  lemma PushRotates(s: Stats, x: FrameStats)
    requires Valid(s) && s.numFrames == MAX_FRAME_STATS
    ensures Retained(Push(s, x)) == Retained(s)[1..] + [x]
  {
    var r, before, n, f := Push(s, x), Retained(s), s.numFrames, s.firstFrame;
    ModSmall(f + n);
    ModSmall(f + 1);
    forall i | 0 <= i < n
      ensures Retained(r)[i] == (before[1..] + [x])[i]
    {
      ModSmall(r.firstFrame + i);
      ModSmall(f + i + 1);
      if i < n - 1 {
        assert before[1..][i] == before[i + 1];
      }
    }
  }

  /** The window flush: the next frame opens a new window starting now. */
  function Flush(s: Stats, now: real): (r: Stats)
    requires Valid(s)
    ensures Valid(r)
    ensures Retained(r) == []
    ensures r.firstTime == now
  {
    s.(numFrames := 0, firstFrame := 0, firstTime := now)
  }

  /** The timings of the frame ending at now: rendering since the frame
      started, and the whole frame since the previous one ended. */
  function Sample(s: Stats, now: real): FrameStats
  {
    FrameStats(now - s.frameTime, now - s.lastTime)
  }

  /** Whether the window opened at firstTime is over at now (line 311). */
  predicate WindowOver(s: Stats, now: real)
  {
    now - s.firstTime >= MAX_PERIOD_MS
  }

  /** The record after stats_endFrame: flushed if the window is over, then
      holding the new frame, with now as the end of the last frame. */
  function Record(s: Stats, now: real): (r: Stats)
    requires Valid(s)
    ensures Valid(r)
    ensures r.lastTime == now
    ensures WindowOver(s, now) ==> r.firstTime == now && Retained(r) == [Sample(s, now)]
    ensures !WindowOver(s, now) ==>
              r.firstTime == s.firstTime &&
              Retained(r) == if s.numFrames < MAX_FRAME_STATS then Retained(s) + [Sample(s, now)]
                             else Retained(s)[1..] + [Sample(s, now)]
  {
    var t := if WindowOver(s, now) then Flush(s, now) else s;
    PushRetained(t, Sample(s, now));
    Push(t, Sample(s, now)).(lastTime := now)
  }

  /** stats_endFrame: time the frame, flush the window when 1500 ms have passed
      since it opened (reporting on it if it held any frame), then store the frame.
      The report is the one lines 316-333 compute: numFrames + 1 slots from
      firstFrame, the sums divided by numFrames. */
  function EndFrame(s: Stats, now: real): (r: Outcome)
    requires Valid(s)
    ensures Valid(r.stats) && r.stats == Record(s, now)
    ensures r.report.Some? <==> WindowOver(s, now) && s.numFrames > 0
    ensures r.report.Some? ==> r.report.value == Summary(Window(s, s.numFrames + 1), s.numFrames)
  {
    var report := if WindowOver(s, now) && s.numFrames > 0 then Some(Summary(Window(s, s.numFrames + 1), s.numFrames)) else None;
    Outcome(Record(s, now), report)
  }

  /** stats_endFrame with the summary corrected to cover exactly the retained
      frames: the record evolves as in EndFrame, and each reported average lies
      between its minimum and maximum. */
  function EndFrameCorrected(s: Stats, now: real): (r: Outcome)
    requires Valid(s)
    ensures Valid(r.stats) && r.stats == EndFrame(s, now).stats
    ensures r.report.Some? <==> WindowOver(s, now) && s.numFrames > 0
    ensures r.report.Some? ==> r.report.value == Summary(Retained(s), s.numFrames)
    ensures r.report.Some? ==>
              r.report.value.minRender <= r.report.value.avgRender <= r.report.value.maxRender &&
              r.report.value.minFrame <= r.report.value.avgFrame <= r.report.value.maxFrame
  {
    if WindowOver(s, now) && s.numFrames > 0 then
      SummaryInRange(Retained(s));
      Outcome(Record(s, now), Some(Summary(Retained(s), s.numFrames)))
    else
      Outcome(Record(s, now), None)
  }

  /** Only the slot the frame is stored in changes: the slot after the newest
      frame, or slot 0 when the window was flushed. */
  lemma RecordSlot(s: Stats, now: real, slot: int)
    requires Valid(s)
    requires slot == if WindowOver(s, now) then 0 else (s.firstFrame + s.numFrames) % MAX_FRAME_STATS
    ensures 0 <= slot < MAX_FRAME_STATS
    ensures Record(s, now).frames[slot] == Sample(s, now)
    ensures forall i :: 0 <= i < MAX_FRAME_STATS && i != slot ==> Record(s, now).frames[i] == s.frames[i]
  {
    var t := if WindowOver(s, now) then Flush(s, now) else s;
    assert slot == (t.firstFrame + t.numFrames) % MAX_FRAME_STATS by { ModSmall(0); }
    assert Record(s, now).frames == Push(t, Sample(s, now)).frames;
  }

  /** The last n elements of xs, or all of them when there are fewer. */
  function Last<T>(xs: seq<T>, n: nat): (r: seq<T>)
    ensures |r| == if |xs| <= n then |xs| else n
    ensures r <= xs || (|xs| > n && r == xs[|xs| - n..])
  {
    if |xs| <= n then xs else xs[|xs| - n..]
  }

  /** Pushing a sequence of samples in order, without flushing. */
  function PushAll(s: Stats, xs: seq<FrameStats>): (r: Stats)
    requires Valid(s)
    ensures Valid(r)
    decreases |xs|
  {
    if xs == [] then s else Push(PushAll(s, xs[..|xs| - 1]), xs[|xs| - 1])
  }

  /** The ring buffer keeps the 200 most recent samples, oldest first. */
  lemma {:induction false} PushAllRetained(s: Stats, xs: seq<FrameStats>)
    requires Valid(s)
    ensures Retained(PushAll(s, xs)) == Last(Retained(s) + xs, MAX_FRAME_STATS as nat)
    decreases |xs|
  {
    if xs == [] {
      assert Retained(s) + xs == Retained(s);
    } else {
      var ys, x := xs[..|xs| - 1], xs[|xs| - 1];
      var t, before := PushAll(s, ys), Retained(s) + ys;
      assert Retained(t) == Last(before, MAX_FRAME_STATS as nat) by { PushAllRetained(s, ys); }
      assert Retained(s) + xs == before + [x] by { assert xs == ys + [x]; }
      PushLast(t, x, before);
    }
  }

  /** One push extends "the buffer holds the last 200 of these" by one sample. */
  lemma PushLast(t: Stats, x: FrameStats, before: seq<FrameStats>)
    requires Valid(t) && Retained(t) == Last(before, MAX_FRAME_STATS as nat)
    ensures Retained(Push(t, x)) == Last(before + [x], MAX_FRAME_STATS as nat)
  {
    PushRetained(t, x);
    LastSnoc(before, x, MAX_FRAME_STATS as nat);
  }

  /** Appending one element to a sequence and keeping the last n. */
  lemma LastSnoc<T>(zs: seq<T>, x: T, n: nat)
    requires n > 0
    ensures Last(zs + [x], n) ==
              if |Last(zs, n)| < n then Last(zs, n) + [x] else Last(zs, n)[1..] + [x]
  {
    if |zs| + 1 > n {
      assert (zs + [x])[|zs| + 1 - n..] == zs[|zs| + 1 - n..] + [x];
      if |zs| > n {
        assert zs[|zs| - n..][1..] == zs[|zs| + 1 - n..];
      } else {
        assert zs[1..] == zs[|zs| + 1 - n..];
      }
    }
  }

  // ---------------------------------------------------------------------------
  // The flush report.

  /** The running minimum of lines 324 and 327: a later value replaces it only when strictly smaller. */
  function MinOf(xs: seq<real>): real
    requires |xs| > 0
  {
    if |xs| == 1 then xs[0]
    else
      var p := MinOf(xs[..|xs| - 1]);
      if xs[|xs| - 1] < p then xs[|xs| - 1] else p
  }

  /** The running maximum of lines 325 and 328: a later value replaces it only when strictly larger. */
  function MaxOf(xs: seq<real>): real
    requires |xs| > 0
  {
    if |xs| == 1 then xs[0]
    else
      var p := MaxOf(xs[..|xs| - 1]);
      if xs[|xs| - 1] > p then xs[|xs| - 1] else p
  }

  /** The running minimum is one of the values and no value is below it. */
  lemma {:induction false} MinOfIsMinimum(xs: seq<real>)
    requires |xs| > 0
    ensures forall i :: 0 <= i < |xs| ==> MinOf(xs) <= xs[i]
    ensures exists i :: 0 <= i < |xs| && MinOf(xs) == xs[i]
    decreases |xs|
  {
    if |xs| > 1 {
      var ys := xs[..|xs| - 1];
      MinOfIsMinimum(ys);
      assert forall i :: 0 <= i < |ys| ==> ys[i] == xs[i];
      var j :| 0 <= j < |ys| && MinOf(ys) == ys[j];
      if xs[|xs| - 1] >= MinOf(ys) {
        assert MinOf(xs) == xs[j];
      } else {
        assert MinOf(xs) == xs[|xs| - 1];
      }
    } else {
      assert MinOf(xs) == xs[0];
    }
  }

  /** The running maximum is one of the values and no value is above it. */
  lemma {:induction false} MaxOfIsMaximum(xs: seq<real>)
    requires |xs| > 0
    ensures forall i :: 0 <= i < |xs| ==> xs[i] <= MaxOf(xs)
    ensures exists i :: 0 <= i < |xs| && MaxOf(xs) == xs[i]
    decreases |xs|
  {
    if |xs| > 1 {
      var ys := xs[..|xs| - 1];
      MaxOfIsMaximum(ys);
      assert forall i :: 0 <= i < |ys| ==> ys[i] == xs[i];
      var j :| 0 <= j < |ys| && MaxOf(ys) == ys[j];
      if xs[|xs| - 1] <= MaxOf(ys) {
        assert MaxOf(xs) == xs[j];
      } else {
        assert MaxOf(xs) == xs[|xs| - 1];
      }
    } else {
      assert MaxOf(xs) == xs[0];
    }
  }

  function SumOf(xs: seq<real>): real
  {
    if xs == [] then 0.0 else SumOf(xs[..|xs| - 1]) + xs[|xs| - 1]
  }

  /** The render times of a run of frames. */
  function Renders(w: seq<FrameStats>): (r: seq<real>)
    ensures |r| == |w| && forall i :: 0 <= i < |w| ==> r[i] == w[i].renderTime
  {
    seq(|w|, i requires 0 <= i < |w| => w[i].renderTime)
  }

  /** The frame-to-frame times of a run of frames. */
  function Frames(w: seq<FrameStats>): (r: seq<real>)
    ensures |r| == |w| && forall i :: 0 <= i < |w| ==> r[i] == w[i].frameTime
  {
    seq(|w|, i requires 0 <= i < |w| => w[i].frameTime)
  }

  /** The report over the frames w, the sums divided by count. */
  function Summary(w: seq<FrameStats>, count: int): Report
    requires |w| > 0 && count > 0
  {
    Report(
      MinOf(Renders(w)), MaxOf(Renders(w)), SumOf(Renders(w)) / count as real,
      MinOf(Frames(w)), MaxOf(Frames(w)), SumOf(Frames(w)) / count as real)
  }

  /** n copies of a added up: a * n without a product for the solver to reason about. */
  function Times(a: real, n: nat): real
  {
    if n == 0 then 0.0 else Times(a, n - 1) + a
  }

  lemma {:induction false} TimesIsProduct(a: real, n: nat)
    ensures Times(a, n) == a * n as real
  {
    if n > 0 {
      TimesIsProduct(a, n - 1);
      assert a * (n - 1) as real + a == a * n as real;
    }
  }

  /** A lower bound on every term bounds the sum by that many copies of it. */
  lemma {:induction false} SumAtLeast(xs: seq<real>, lo: real)
    requires forall i :: 0 <= i < |xs| ==> lo <= xs[i]
    ensures Times(lo, |xs|) <= SumOf(xs)
    decreases |xs|
  {
    if xs != [] {
      var ys := xs[..|xs| - 1];
      assert forall i :: 0 <= i < |ys| ==> ys[i] == xs[i];
      SumAtLeast(ys, lo);
    }
  }

  /** An upper bound on every term bounds the sum by that many copies of it. */
  lemma {:induction false} SumAtMost(xs: seq<real>, hi: real)
    requires forall i :: 0 <= i < |xs| ==> xs[i] <= hi
    ensures SumOf(xs) <= Times(hi, |xs|)
    decreases |xs|
  {
    if xs != [] {
      var ys := xs[..|xs| - 1];
      assert forall i :: 0 <= i < |ys| ==> ys[i] == xs[i];
      SumAtMost(ys, hi);
    }
  }

  /** AverageBetween with the bounds given as repeated sums. */
  lemma AverageBetweenTimes(lo: real, sum: real, hi: real, n: nat)
    requires n > 0 && Times(lo, n) <= sum <= Times(hi, n)
    ensures lo <= sum / n as real <= hi
  {
    TimesIsProduct(lo, n);
    TimesIsProduct(hi, n);
    AverageBetween(lo, sum, hi, n as real);
  }

  /** Dividing bounds on a sum by the number of terms bounds the average. */
  lemma AverageBetween(lo: real, sum: real, hi: real, n: real)
    requires n > 0.0 && lo * n <= sum <= hi * n
    ensures lo <= sum / n <= hi
  {
    assert (lo * n) / n == lo && (hi * n) / n == hi;
    DivMonotone(lo * n, sum, n);
    DivMonotone(sum, hi * n, n);
  }

  lemma DivMonotone(a: real, b: real, n: real)
    requires n > 0.0 && a <= b
    ensures a / n <= b / n
  {
    assert b / n - a / n == (b - a) / n;
  }

  /** Averaging over exactly the frames summed puts each average between its minimum and maximum. */
  lemma SummaryInRange(w: seq<FrameStats>)
    requires |w| > 0
    ensures var r := Summary(w, |w|);
            r.minRender <= r.avgRender <= r.maxRender && r.minFrame <= r.avgFrame <= r.maxFrame
  {
    AverageInRange(Renders(w));
    AverageInRange(Frames(w));
  }

  /** The average of a nonempty run lies between its minimum and its maximum. */
  lemma AverageInRange(xs: seq<real>)
    requires |xs| > 0
    ensures MinOf(xs) <= SumOf(xs) / |xs| as real <= MaxOf(xs)
  {
    var lo, hi, sum, n := MinOf(xs), MaxOf(xs), SumOf(xs), |xs|;
    assert Times(lo, n) <= sum <= Times(hi, n) by {
      MinOfIsMinimum(xs);
      MaxOfIsMaximum(xs);
      SumAtLeast(xs, lo);
      SumAtMost(xs, hi);
    }
    AverageBetweenTimes(lo, sum, hi, n);
  }

  /** The running minimum, maximum and sum of one timing. */
  datatype Running = Running(lo: real, hi: real, sum: real)

  /** w lists the slots of s from firstFrame onwards, in ring order. */
  predicate ReadsRing(s: Stats, w: seq<FrameStats>)
    requires Valid(s)
  {
    forall i :: 0 <= i < |w| ==> w[i] == s.frames[(s.firstFrame + i) % MAX_FRAME_STATS]
  }

  /** The running minimum, maximum and sum of the first n values of xs. */
  function Prefix(xs: seq<real>, n: nat): Running
    requires 0 < n <= |xs|
  {
    Running(MinOf(xs[..n]), MaxOf(xs[..n]), SumOf(xs[..n]))
  }

  /** The scan of lines 316-331: starting at firstFrame, read one slot and then
      `extra` more, each index wrapped into the buffer; the running values are
      then the minimum, maximum and sum of both timings over the slots read. */
  method ScanWindow(s: Stats, w: seq<FrameStats>, extra: nat) returns (render: Running, frame: Running)
    requires Valid(s) && extra <= MAX_FRAME_STATS
    requires |w| == extra + 1 && ReadsRing(s, w)
    ensures render == Running(MinOf(Renders(w)), MaxOf(Renders(w)), SumOf(Renders(w)))
    ensures frame == Running(MinOf(Frames(w)), MaxOf(Frames(w)), SumOf(Frames(w)))
  {
    render, frame := ScanPrefix(s, w, extra);
    PrefixWhole(Renders(w));
    PrefixWhole(Frames(w));
  }

  /** The loop of the scan: after it, the running values cover every slot of w. */
  method ScanPrefix(s: Stats, w: seq<FrameStats>, extra: nat) returns (render: Running, frame: Running)
    requires Valid(s) && extra <= MAX_FRAME_STATS
    requires |w| == extra + 1 && ReadsRing(s, w)
    ensures render == Prefix(Renders(w), |w|)
    ensures frame == Prefix(Frames(w), |w|)
  {
    var nn := s.firstFrame;
    assert nn == (s.firstFrame + 0) % MAX_FRAME_STATS by { ModSmall(nn); }
    render, frame := ReadFirst(s, w);
    var count, k := extra, 0;
    while count > 0
      invariant 0 <= count <= extra && k == extra - count
      invariant nn == (s.firstFrame + k) % MAX_FRAME_STATS
      invariant render == Prefix(Renders(w), k + 1)
      invariant frame == Prefix(Frames(w), k + 1)
    {
      nn := NextSlot(s, nn, k + 1);
      render, frame := ReadSlot(s, w, k + 1, nn, render, frame);
      count, k := count - 1, k + 1;
    }
  }

  /** Lines 317-319: slot firstFrame starts the running values of both timings,
      which are then the minimum, maximum and sum of the window's first frame. */
  method ReadFirst(s: Stats, w: seq<FrameStats>) returns (render: Running, frame: Running)
    requires Valid(s) && |w| > 0 && ReadsRing(s, w)
    ensures render == Prefix(Renders(w), 1)
    ensures frame == Prefix(Frames(w), 1)
  {
    var nn := s.firstFrame;
    ModSmall(nn);
    var r, f := s.frames[nn].renderTime, s.frames[nn].frameTime;
    render, frame := Running(r, r, r), Running(f, f, f);
    PrefixFirst(Renders(w));
    PrefixFirst(Frames(w));
  }

  /** Lines 324-330: slot nn, the i-th of the window, joins the running values of both
      timings, which then cover the window's first i + 1 frames. */
  method ReadSlot(s: Stats, w: seq<FrameStats>, i: nat, nn: int, render: Running, frame: Running)
    returns (render': Running, frame': Running)
    requires Valid(s) && 0 < i < |w| && ReadsRing(s, w)
    requires nn == (s.firstFrame + i) % MAX_FRAME_STATS
    requires render == Prefix(Renders(w), i) && frame == Prefix(Frames(w), i)
    ensures render' == Prefix(Renders(w), i + 1) && frame' == Prefix(Frames(w), i + 1)
  {
    var r := s.frames[nn].renderTime;
    var minRender, maxRender := render.lo, render.hi;
    if r < minRender { minRender := r; }
    if r > maxRender { maxRender := r; }
    var f := s.frames[nn].frameTime;
    var minFrame, maxFrame := frame.lo, frame.hi;
    if f < minFrame { minFrame := f; }
    if f > maxFrame { maxFrame := f; }
    render' := Running(minRender, maxRender, render.sum + r);
    frame' := Running(minFrame, maxFrame, frame.sum + f);
    PrefixStep(Renders(w), i);
    PrefixStep(Frames(w), i);
  }

  /** One value alone is its own minimum, maximum and sum. */
  lemma PrefixFirst(xs: seq<real>)
    requires |xs| > 0
    ensures Prefix(xs, 1) == Running(xs[0], xs[0], xs[0])
  {
    var ys := xs[..1];
    assert |ys| == 1 && ys[0] == xs[0];
    assert ys[..0] == [];
    assert SumOf(ys) == SumOf(ys[..0]) + xs[0];
  }

  /** The next value replaces the running minimum only when strictly smaller and
      the running maximum only when strictly larger, and joins the sum. */
  lemma PrefixStep(xs: seq<real>, i: nat)
    requires 0 < i < |xs|
    ensures var acc, v := Prefix(xs, i), xs[i];
            Prefix(xs, i + 1) ==
              Running(if v < acc.lo then v else acc.lo, if v > acc.hi then v else acc.hi, acc.sum + v)
  {
    var ys := xs[..i + 1];
    assert |ys| == i + 1 && ys[i] == xs[i];
    assert ys[..i] == xs[..i];
    assert MinOf(ys) == if xs[i] < MinOf(xs[..i]) then xs[i] else MinOf(xs[..i]);
    assert MaxOf(ys) == if xs[i] > MaxOf(xs[..i]) then xs[i] else MaxOf(xs[..i]);
    assert SumOf(ys) == SumOf(xs[..i]) + xs[i];
  }

  /** Running values over all of xs are its minimum, maximum and sum. */
  lemma PrefixWhole(xs: seq<real>)
    requires |xs| > 0
    ensures Prefix(xs, |xs|) == Running(MinOf(xs), MaxOf(xs), SumOf(xs))
  {
    assert xs[..|xs|] == xs;
  }

  /** One step of the scan: `nn += 1` and the wrap keep nn at the i-th slot of the window. */
  method NextSlot(s: Stats, nn: int, i: nat) returns (next: int)
    requires Valid(s) && 0 < i <= MAX_FRAME_STATS
    requires nn == (s.firstFrame + (i - 1)) % MAX_FRAME_STATS
    ensures 0 <= next < MAX_FRAME_STATS
    ensures next == (s.firstFrame + i) % MAX_FRAME_STATS
  {
    ModSmall(s.firstFrame + (i - 1));
    ModSmall(s.firstFrame + i);
    next := nn + 1;
    if next >= MAX_FRAME_STATS {
      next := next - MAX_FRAME_STATS;
    }
  }

  /** The report exactly as lines 316-333 compute it: the scan runs for
      numFrames further slots after the first, so it reads numFrames + 1
      slots, and the sums are divided by numFrames. */
  method SummarizeAsWritten(s: Stats) returns (r: Report)
    requires Valid(s) && s.numFrames > 0
    ensures r == Summary(Window(s, s.numFrames + 1), s.numFrames)
  {
    var w := Window(s, s.numFrames + 1);
    var render, frame := ScanWindow(s, w, s.numFrames);
    r := Report(render.lo, render.hi, render.sum / s.numFrames as real,
                frame.lo, frame.hi, frame.sum / s.numFrames as real);
  }

  /** The report over exactly the retained frames: the scan stops after the
      newest frame, and each average lies between its minimum and maximum. */
  method Summarize(s: Stats) returns (r: Report)
    requires Valid(s) && s.numFrames > 0
    ensures r == Summary(Retained(s), s.numFrames)
    ensures r.minRender <= r.avgRender <= r.maxRender
    ensures r.minFrame <= r.avgFrame <= r.maxFrame
  {
    var w := Retained(s);
    var render, frame := ScanWindow(s, w, s.numFrames - 1);
    r := Report(render.lo, render.hi, render.sum / s.numFrames as real,
                frame.lo, frame.hi, frame.sum / s.numFrames as real);
    SummaryInRange(w);
  }

  /** A reachable run on which the report stats_endFrame logs is out of range.
      Two frames fill slots 0 and 1; the next end of frame flushes, so slot 0
      is overwritten and numFrames is 1, while slot 1 still holds the stale
      frame. The end of frame after that flushes again and reports on two
      slots divided by one: an average render time of 100 ms against a
      maximum of 50 ms. The corrected report averages 50 ms. */
  lemma AsWrittenAverageExceedsMaximum()
    ensures var s0 := StatsInit(0.0);
            var s1 := EndFrame(StartFrame(s0, 1000.0), 1600.0).stats;
            var s2 := EndFrame(StartFrame(s1, 1650.0), 1700.0).stats;
            var s3 := EndFrame(StartFrame(s2, 3150.0), 3200.0).stats;
            var o := EndFrame(StartFrame(s3, 4700.0), 4750.0);
            var c := EndFrameCorrected(StartFrame(s3, 4700.0), 4750.0);
            s3.numFrames == 1 && o.report.Some? &&
            o.report.value.avgRender == 100.0 && o.report.value.maxRender == 50.0 &&
            o.report.value.avgRender > o.report.value.maxRender &&
            c.report.Some? && c.report.value.avgRender == 50.0
  {
    var s0 := StatsInit(0.0);
    var s1 := EndFrame(StartFrame(s0, 1000.0), 1600.0).stats;
    ModSmall(0);
    assert s1.numFrames == 1 && s1.firstFrame == 0 && s1.firstTime == 1600.0 && s1.lastTime == 1600.0;
    var s2 := EndFrame(StartFrame(s1, 1650.0), 1700.0).stats;
    ModSmall(1);
    assert s2.numFrames == 2 && s2.firstFrame == 0 && s2.firstTime == 1600.0;
    assert s2.frames[1] == FrameStats(50.0, 100.0);
    var s3 := EndFrame(StartFrame(s2, 3150.0), 3200.0).stats;
    assert s3.numFrames == 1 && s3.firstFrame == 0 && s3.firstTime == 3200.0;
    assert s3.frames[0] == FrameStats(50.0, 1500.0);
    assert s3.frames[1] == FrameStats(50.0, 100.0);
    var t := StartFrame(s3, 4700.0);
    assert WindowOver(t, 4750.0);
    var w := Window(t, 2);
    assert w == [FrameStats(50.0, 1500.0), FrameStats(50.0, 100.0)];
    var rs := Renders(w);
    assert rs == [50.0, 50.0];
    assert rs[..1] == [50.0] && [50.0][..0] == [];
    assert SumOf(rs) == 100.0;
    assert MaxOf(rs) == 50.0;
    assert Retained(t) == [FrameStats(50.0, 1500.0)];
    assert Renders(Retained(t)) == [50.0] && SumOf([50.0]) == 50.0;
  }
}
