/** The arithmetic of `update_frame`: the centre pixel, the fixed linear
    calibration from raw sensor units to degrees Celsius, the frame mean, and
    the windowed frames-per-second estimate. Temperatures are exact reals and
    time is whole milliseconds supplied by the caller. */
module FrameStats {

  // ---------------------------------------------------------------------------
  // Centre pixel.

  /** Row `height / 2`, column `width / 2` of a row-major thermal frame. */
  function CenterIndex(width: nat, height: nat): nat
  {
    (height / 2) * width + width / 2
  }

  lemma MulMonotone(a: int, b: int, w: nat)
    requires a <= b
    ensures a * w <= b * w
  {
    assert b * w - a * w == (b - a) * w;
  }

  /** For any frame of at least one pixel the centre index addresses a sample of the buffer. */
  lemma CenterIndexInBounds(width: nat, height: nat)
    requires width >= 1 && height >= 1
    ensures CenterIndex(width, height) < width * height
  {
    var q := height / 2;
    MulMonotone(q + 1, height, width);
    assert (q + 1) * width == q * width + width;
  }

  /** The index is that of row `height / 2`, column `width / 2`: integer
      division, so an even side picks the pixel just past the middle. */
  lemma CenterIndexRowColumn(width: nat, height: nat)
    requires width >= 1
    ensures CenterIndex(width, height) / width == height / 2
    ensures CenterIndex(width, height) % width == width / 2
  {
    var i, q, r := CenterIndex(width, height), height / 2, width / 2;
    var d, m := i / width, i % width;
    assert i == d * width + m;
    assert (d - q) * width == r - m;
    if d - q >= 1 {
      MulMonotone(1, d - q, width);
      assert false;
    } else if d - q <= -1 {
      MulMonotone(d - q, -1, width);
      assert false;
    }
  }

  lemma CenterIndexExamples()
    ensures CenterIndex(640, 480) == 153920
    ensures CenterIndex(641, 481) == 240 * 641 + 320
    ensures CenterIndex(1, 1) == 0
  {
  }

  // ---------------------------------------------------------------------------
  // Calibration.

  /** `raw / 10.0 - 100.0`, exactly. */
  function Celsius(raw: int): real
  {
    raw as real / 10.0 - 100.0
  }

  /** The same temperature as a whole number of tenths of a degree. */
  function TenthsOfDegree(raw: int): int
  {
    raw - 1000
  }

  lemma CelsiusIsTenths(raw: int)
    ensures Celsius(raw) == TenthsOfDegree(raw) as real / 10.0
    ensures Celsius(1000) == 0.0 && Celsius(0) == -100.0
    ensures raw <= 0xFFFF ==> Celsius(raw) <= 6453.5
  {
  }

  // ---------------------------------------------------------------------------
  // Frame mean.

  function SumRaw(s: seq<int>): int
    decreases |s|
  {
    if s == [] then 0 else SumRaw(s[..|s| - 1]) + s[|s| - 1]
  }

  /** The sum of the converted samples. */
  function SumCelsius(s: seq<int>): real
    decreases |s|
  {
    if s == [] then 0.0 else SumCelsius(s[..|s| - 1]) + Celsius(s[|s| - 1])
  }

  /** `np.mean` of the converted frame, as an exact quotient. */
  function MeanCelsius(frame: seq<int>): real
    requires |frame| > 0
  {
    SumCelsius(frame) / |frame| as real
  }

  lemma {:induction false} SumCelsiusLinear(s: seq<int>)
    ensures SumCelsius(s) == SumRaw(s) as real / 10.0 - 100.0 * |s| as real
    decreases |s|
  {
    if s != [] {
      SumCelsiusLinear(s[..|s| - 1]);
    }
  }

  /** Converting then averaging equals averaging the raw samples then converting. */
  lemma MeanIsCelsiusOfMeanRaw(frame: seq<int>)
    requires |frame| > 0
    ensures MeanCelsius(frame) == (SumRaw(frame) as real / |frame| as real) / 10.0 - 100.0
  {
    SumCelsiusLinear(frame);
    var n := |frame| as real;
    var s := SumRaw(frame) as real;
    assert (s / 10.0 - 100.0 * n) / n == (s / 10.0) / n - (100.0 * n) / n;
    assert (100.0 * n) / n == 100.0;
    assert (s / 10.0) / n == (s / n) / 10.0;
  }

  /** `c` added up `n` times. */
  function Times(n: nat, c: real): real
  {
    if n == 0 then 0.0 else Times(n - 1, c) + c
  }

  lemma {:induction false} TimesIsProduct(n: nat, c: real)
    ensures Times(n, c) == n as real * c
  {
    if n > 0 {
      TimesIsProduct(n - 1, c);
      assert (n - 1) as real * c + c == n as real * c;
    }
  }

  lemma {:induction false} SumCelsiusBounds(s: seq<int>, lo: int, hi: int)
    requires forall i :: 0 <= i < |s| ==> lo <= s[i] <= hi
    ensures Times(|s|, Celsius(lo)) <= SumCelsius(s) <= Times(|s|, Celsius(hi))
    decreases |s|
  {
    if s != [] {
      var pre, last := s[..|s| - 1], s[|s| - 1];
      assert forall i :: 0 <= i < |pre| ==> lo <= pre[i] <= hi by {
        assert forall i :: 0 <= i < |pre| ==> pre[i] == s[i];
      }
      SumCelsiusBounds(pre, lo, hi);
      assert SumCelsius(s) == SumCelsius(pre) + Celsius(last);
      assert Celsius(lo) <= Celsius(last) <= Celsius(hi);
    }
  }

  /** The mean lies between the temperatures of the coldest and hottest sample bounds;
      for 16-bit samples that is between -100 and 6453.5 degrees. */
  lemma MeanWithinSampleRange(frame: seq<int>, lo: int, hi: int)
    requires |frame| > 0
    requires forall i :: 0 <= i < |frame| ==> lo <= frame[i] <= hi
    ensures Celsius(lo) <= MeanCelsius(frame) <= Celsius(hi)
  {
    var n, total := |frame| as real, SumCelsius(frame);
    assert MeanCelsius(frame) == total / n;
    assert n * Celsius(lo) <= total <= n * Celsius(hi) by {
      SumCelsiusBounds(frame, lo, hi);
      TimesIsProduct(|frame|, Celsius(lo));
      TimesIsProduct(|frame|, Celsius(hi));
    }
    QuotientBounds(n, Celsius(lo), total);
    QuotientBounds(n, Celsius(hi), total);
  }

  /** Dividing a bound on a total of `n` shares by `n` bounds one share. */
  lemma QuotientBounds(n: real, c: real, total: real)
    requires n > 0.0
    ensures n * c <= total ==> c <= total / n
    ensures total <= n * c ==> total / n <= c
  {
    var q := total / n;
    assert total == n * q;
    assert n * c - n * q == n * (c - q);
  }

  // ---------------------------------------------------------------------------
  // Frames per second.

  /** The FPS estimate is recomputed once more than this many milliseconds have passed. */
  const FpsWindowMs: int := 500

  /** `frame_count`, `fps` and `last_update_time`. */
  datatype FpsWindow = FpsWindow(frameCount: nat, fps: real, lastUpdateMs: int)

  /** One successfully acquired frame at time `nowMs`. */
  function Tick(w: FpsWindow, nowMs: int): FpsWindow
  {
    var count := w.frameCount + 1;
    var elapsed := nowMs - w.lastUpdateMs;
    if elapsed > FpsWindowMs then FpsWindow(0, count as real * 1000.0 / elapsed as real, nowMs)
    else w.(frameCount := count)
  }

  /** Successive ticks at the given times. */
  function Run(w: FpsWindow, times: seq<int>): FpsWindow
    decreases |times|
  {
    if times == [] then w else Tick(Run(w, times[..|times| - 1]), times[|times| - 1])
  }

  lemma {:induction false} RunAppend(w: FpsWindow, a: seq<int>, b: seq<int>)
    ensures Run(w, a + b) == Run(Run(w, a), b)
    decreases |b|
  {
    if b == [] {
      assert a + b == a;
    } else {
      var bp := b[..|b| - 1];
      RunAppend(w, a, bp);
      assert (a + b)[..|a + b| - 1] == a + bp;
      assert (a + b)[|a + b| - 1] == b[|b| - 1];
    }
  }

  /** Within the window nothing but the counter moves: `fps` and the anchor are kept. */
  lemma {:induction false} QuietWindowAccumulates(w: FpsWindow, times: seq<int>)
    requires forall i :: 0 <= i < |times| ==> times[i] - w.lastUpdateMs <= FpsWindowMs
    ensures Run(w, times) == w.(frameCount := w.frameCount + |times|)
    decreases |times|
  {
    if times != [] {
      QuietWindowAccumulates(w, times[..|times| - 1]);
    }
  }

  /** The first tick past the window publishes the frames counted since the
      anchor, divided by the elapsed seconds, and restarts the count. */
  lemma WindowedRate(w: FpsWindow, times: seq<int>)
    requires |times| > 0
    requires forall i :: 0 <= i < |times| - 1 ==> times[i] - w.lastUpdateMs <= FpsWindowMs
    requires times[|times| - 1] - w.lastUpdateMs > FpsWindowMs
    ensures Run(w, times) == FpsWindow(
      0,
      (w.frameCount + |times|) as real * 1000.0 / (times[|times| - 1] - w.lastUpdateMs) as real,
      times[|times| - 1])
  {
    QuietWindowAccumulates(w, times[..|times| - 1]);
  }

  /** After a recompute the count starts again from zero: frames of the old
      window never leak into the next estimate. */
  lemma CounterDoesNotCarryOver(w: FpsWindow, first: seq<int>, next: seq<int>)
    requires |first| > 0
    requires forall i :: 0 <= i < |first| - 1 ==> first[i] - w.lastUpdateMs <= FpsWindowMs
    requires first[|first| - 1] - w.lastUpdateMs > FpsWindowMs
    requires forall i :: 0 <= i < |next| ==> next[i] - first[|first| - 1] <= FpsWindowMs
    ensures Run(w, first + next).frameCount == |next|
    ensures Run(w, first + next).lastUpdateMs == first[|first| - 1]
  {
    RunAppend(w, first, next);
    WindowedRate(w, first);
    QuietWindowAccumulates(Run(w, first), next);
  }
}
