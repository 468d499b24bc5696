/**
 * `rateTracker` in cmd/transferctl/watch.go: a throughput from successive byte
 * totals, and its time-weighted moving average.
 *
 * Rates are exact reals. A time is seconds since Go's zero time, so IsZero is
 * equality with 0.0.
 */
module RateTracker {

  /** smoothingWindow, in seconds. */
  const WINDOW: real := 30.0

  datatype Sample = Sample(bytes: int, at: real)

  datatype State = State(lastBytes: int, lastAt: real, current: real, peak: real, smoothed: real)

  const INIT: State := State(0, 0.0, 0.0, 0.0, 0.0)

  // ---- specification ------------------------------------------------------

  /** What one sample adds: bytes moved over a number of seconds. */
  datatype Window = Window(moved: int, seconds: real)

  function Rate(w: Window): real
    requires w.seconds > 0.0
  {
    w.moved as real / w.seconds
  }

  function WindowOf(t: State, s: Sample): Window {
    Window(s.bytes - t.lastBytes, s.at - t.lastAt)
  }

  /** The first sample, a clock that did not advance and a counter that went back are skipped. */
  predicate Accepts(t: State, s: Sample) {
    t.lastAt != 0.0 && WindowOf(t, s).seconds > 0.0 && WindowOf(t, s).moved >= 0
  }

  /** The average after a window of `seconds` at rate `rate`. */
  function Average(smoothed: real, rate: real, seconds: real): real
    requires seconds > 0.0
  {
    if smoothed == 0.0 then rate
    else smoothed + seconds / (seconds + WINDOW) * (rate - smoothed)
  }

  function Observed(t: State, s: Sample): State {
    if !Accepts(t, s) then t.(lastBytes := s.bytes, lastAt := s.at)
    else
      var rate := Rate(WindowOf(t, s));
      State(s.bytes, s.at, rate, if rate > t.peak then rate else t.peak,
        Average(t.smoothed, rate, s.at - t.lastAt))
  }

  function RunFrom(t: State, samples: seq<Sample>): State {
    if samples == [] then t
    else Observed(RunFrom(t, samples[..|samples| - 1]), samples[|samples| - 1])
  }

  /** The windows a run accepted. */
  function Accepted(samples: seq<Sample>): (w: seq<Window>)
    ensures forall k :: 0 <= k < |w| ==> w[k].seconds > 0.0 && w[k].moved >= 0
  {
    if samples == [] then []
    else
      var front, s := samples[..|samples| - 1], samples[|samples| - 1];
      var t := RunFrom(INIT, front);
      Accepted(front) + if Accepts(t, s) then [WindowOf(t, s)] else []
  }

  // ---- the code -----------------------------------------------------------

  class Tracker {
    var lastBytes: int
    var lastAt: real
    var current: real
    var peak: real
    var smoothed: real

    function Abs(): State
      reads this
    {
      State(lastBytes, lastAt, current, peak, smoothed)
    }

    constructor ()
      ensures Abs() == INIT
    {
      lastBytes, lastAt := 0, 0.0;
      current, peak, smoothed := 0.0, 0.0, 0.0;
    }

    /** The deferred update of lastBytes and lastAt runs on every path. */
    method Observe(bytes: int, at: real)
      modifies this
      ensures Abs() == Observed(old(Abs()), Sample(bytes, at))
    {
      Sampled(bytes, at);
      lastBytes, lastAt := bytes, at;
    }

    method Sampled(bytes: int, at: real)
      modifies this
      ensures Abs() == Observed(old(Abs()), Sample(bytes, at)).(lastBytes := old(lastBytes), lastAt := old(lastAt))
    {
      if lastAt == 0.0 {
        return;
      }
      var seconds := at - lastAt;
      if seconds <= 0.0 {
        return;
      }
      var moved := bytes - lastBytes;
      if moved < 0 {
        return;
      }
      current := moved as real / seconds;
      if current > peak {
        peak := current;
      }
      if smoothed == 0.0 {
        smoothed := current;
        return;
      }
      var alpha := seconds / (seconds + WINDOW);
      smoothed := smoothed + alpha * (current - smoothed);
    }
  }

  // ---- invariants of every run --------------------------------------------

  lemma Quotient(x: real, y: real)
    requires x >= 0.0 && y > 0.0
    ensures x / y >= 0.0 && x / y * y == x
  {
  }

  lemma MulNonNegative(x: real, y: real)
    requires x >= 0.0 && y >= 0.0
    ensures x * y >= 0.0
  {
  }

  lemma MulMonotone(x: real, y: real, z: real)
    requires x <= y && z >= 0.0
    ensures x * z <= y * z
  {
    MulNonNegative(y - x, z);
    assert (y - x) * z == y * z - x * z;
  }

  lemma MulStrict(x: real, y: real, z: real)
    requires x < y && z > 0.0
    ensures x * z < y * z
  {
    assert (y - x) * z > 0.0;
    assert (y - x) * z == y * z - x * z;
  }

  /** Weights between 0 and 1 keep an average between its parts. */
  lemma Between(lo: real, hi: real, a: real, b: real, weight: real)
    requires lo <= a <= hi && lo <= b <= hi && 0.0 <= weight <= 1.0
    ensures lo <= a + weight * (b - a) <= hi
  {
    var d := if b >= a then b - a else a - b;
    MulNonNegative(weight, d);
    MulMonotone(weight, 1.0, d);
    if b < a {
      assert weight * (b - a) == -(weight * d);
    }
  }

  lemma AverageBetween(lo: real, hi: real, smoothed: real, rate: real, seconds: real)
    requires seconds > 0.0 && lo <= rate <= hi
    requires smoothed == 0.0 || lo <= smoothed <= hi
    ensures lo <= Average(smoothed, rate, seconds) <= hi
  {
    if smoothed != 0.0 {
      Between(lo, hi, smoothed, rate, seconds / (seconds + WINDOW));
    }
  }

  ghost predicate PeakOf(t: State, w: seq<Window>)
    requires forall k :: 0 <= k < |w| ==> w[k].seconds > 0.0
  {
    && 0.0 <= t.current <= t.peak
    && (w == [] ==> t.current == t.peak == t.smoothed == 0.0)
    && (w != [] ==> t.current == Rate(w[|w| - 1]) && exists k :: 0 <= k < |w| && t.peak == Rate(w[k]))
    && forall k :: 0 <= k < |w| ==> Rate(w[k]) <= t.peak
  }

  lemma PeakStep(t: State, w: seq<Window>, t': State, last: Window)
    requires forall k :: 0 <= k < |w| ==> w[k].seconds > 0.0
    requires last.seconds > 0.0 && last.moved >= 0
    requires PeakOf(t, w)
    requires t'.current == Rate(last) && t'.peak == if Rate(last) > t.peak then Rate(last) else t.peak
    ensures PeakOf(t', w + [last])
  {
    Quotient(last.moved as real, last.seconds);
    hide Rate;
    var w' := w + [last];
    assert w'[|w|] == last;
    assert forall k :: 0 <= k < |w| ==> w'[k] == w[k];
    if Rate(last) <= t.peak && w != [] {
      var k :| 0 <= k < |w| && t.peak == Rate(w[k]);
      assert t'.peak == Rate(w'[k]);
    } else {
      assert t'.peak == Rate(w'[|w|]);
    }
  }

  /** 0 <= current <= peak, and peak is the greatest accepted rate. */
  lemma {:induction false} PeakIsMaximum(samples: seq<Sample>)
    ensures PeakOf(RunFrom(INIT, samples), Accepted(samples))
  {
    hide Rate, Average;
    if samples != [] {
      var front, s := samples[..|samples| - 1], samples[|samples| - 1];
      PeakIsMaximum(front);
      var before := RunFrom(INIT, front);
      if Accepts(before, s) {
        PeakStep(before, Accepted(front), Observed(before, s), WindowOf(before, s));
      } else {
        assert Accepted(samples) == Accepted(front) + [] == Accepted(front);
      }
    }
  }

  /** The average lies between the least and the greatest accepted rate. */
  lemma {:induction false} SmoothedBetween(samples: seq<Sample>, lo: real, hi: real)
    requires Accepted(samples) != []
    requires forall k :: 0 <= k < |Accepted(samples)| ==> lo <= Rate(Accepted(samples)[k]) <= hi
    ensures lo <= RunFrom(INIT, samples).smoothed <= hi
  {
    var front, s := samples[..|samples| - 1], samples[|samples| - 1];
    var before := RunFrom(INIT, front);
    var w := Accepted(front);
    assert forall k :: 0 <= k < |w| ==> Accepted(samples)[k] == w[k];
    if w == [] {
      PeakIsMaximum(front);
    } else {
      SmoothedBetween(front, lo, hi);
    }
    if Accepts(before, s) {
      assert Accepted(samples)[|w|] == WindowOf(before, s);
      AverageBetween(lo, hi, before.smoothed, Rate(WindowOf(before, s)), s.at - before.lastAt);
    }
  }

  function Moved(w: seq<Window>): int {
    if w == [] then 0 else Moved(w[..|w| - 1]) + w[|w| - 1].moved
  }

  function Duration(w: seq<Window>): real {
    if w == [] then 0.0 else Duration(w[..|w| - 1]) + w[|w| - 1].seconds
  }

  lemma {:induction false} MovedWithinPeak(w: seq<Window>, peak: real)
    requires forall k :: 0 <= k < |w| ==> w[k].seconds > 0.0 && w[k].moved >= 0 && Rate(w[k]) <= peak
    ensures Moved(w) as real <= peak * Duration(w)
  {
    if w != [] {
      var front, last := w[..|w| - 1], w[|w| - 1];
      MovedWithinPeak(front, peak);
      Quotient(last.moved as real, last.seconds);
      MulMonotone(Rate(last), peak, last.seconds);
      assert peak * (Duration(front) + last.seconds) == peak * Duration(front) + peak * last.seconds;
    }
  }

  /** The bytes counted over the accepted windows never exceed the peak rate kept up throughout. */
  lemma BytesWithinPeak(samples: seq<Sample>)
    ensures var w := Accepted(samples);
      Moved(w) as real <= RunFrom(INIT, samples).peak * Duration(w)
  {
    hide Rate, Average, RunFrom, Moved, Duration, Accepted;
    PeakIsMaximum(samples);
    MovedWithinPeak(Accepted(samples), RunFrom(INIT, samples).peak);
  }

  // ---- what a run leaves behind -------------------------------------------

  /**
   * The windows between neighbouring samples: the first of the two is not at
   * the zero time, the clock advanced and the bytes did not go back.
   */
  function Measured(samples: seq<Sample>): (w: seq<Window>)
    ensures forall k :: 0 <= k < |w| ==> w[k].seconds > 0.0 && w[k].moved >= 0
  {
    if |samples| < 2 then []
    else
      var a, b := samples[|samples| - 2], samples[|samples| - 1];
      Measured(samples[..|samples| - 1])
        + if a.at != 0.0 && b.at > a.at && b.bytes >= a.bytes then [Window(b.bytes - a.bytes, b.at - a.at)] else []
  }

  /** An average over windows, each as if it followed thirty seconds of the average so far. */
  function Blend(w: seq<Window>): real
    requires forall k :: 0 <= k < |w| ==> w[k].seconds > 0.0
  {
    if w == [] then 0.0
    else
      var before, last := Blend(w[..|w| - 1]), w[|w| - 1];
      if before == 0.0 then last.moved as real / last.seconds
      else (30.0 * before + last.moved as real) / (30.0 + last.seconds)
  }

  /** Every sample, skipped or not, is the baseline of the next. */
  lemma BaselineIsLastSample(t: State, samples: seq<Sample>)
    requires samples != []
    ensures var last := samples[|samples| - 1];
      RunFrom(t, samples).lastBytes == last.bytes && RunFrom(t, samples).lastAt == last.at
  {
  }

  /** What a run counts is read off its samples. */
  lemma {:induction false} AcceptedIsMeasured(samples: seq<Sample>)
    ensures Accepted(samples) == Measured(samples)
  {
    if samples != [] {
      var front := samples[..|samples| - 1];
      AcceptedIsMeasured(front);
      if front != [] {
        BaselineIsLastSample(INIT, front);
      } else {
        assert Accepted(samples) == Accepted(front) + [];
      }
    }
  }

  lemma AverageIsBlend(smoothed: real, w: Window)
    requires w.seconds > 0.0 && smoothed != 0.0
    ensures Average(smoothed, Rate(w), w.seconds) == (30.0 * smoothed + w.moved as real) / (30.0 + w.seconds)
  {
    var s, m := w.seconds, w.moved as real;
    var alpha := s / (s + 30.0);
    assert alpha * (s + 30.0) == s && m / s * s == m;
    var next := smoothed + alpha * (m / s - smoothed);
    assert next * (s + 30.0) == smoothed * (s + 30.0) + s * (m / s - smoothed) by {
      assert alpha * (m / s - smoothed) * (s + 30.0) == s * (m / s - smoothed);
    }
    assert s * (m / s - smoothed) == m - s * smoothed;
    assert next * (30.0 + s) == 30.0 * smoothed + m;
    QuotientIs(30.0 * smoothed + m, 30.0 + s, next);
  }

  /** The rates depend on the samples through those windows alone; a skipped sample moves none of them. */
  lemma {:induction false} RunIsItsWindows(samples: seq<Sample>)
    ensures var t, w := RunFrom(INIT, samples), Measured(samples);
      && t.smoothed == Blend(w)
      && t.current == (if w == [] then 0.0 else w[|w| - 1].moved as real / w[|w| - 1].seconds)
  {
    AcceptedIsMeasured(samples);
    if samples != [] {
      var front, s := samples[..|samples| - 1], samples[|samples| - 1];
      RunIsItsWindows(front);
      AcceptedIsMeasured(front);
      var before, w := RunFrom(INIT, front), Measured(front);
      hide Average, Measured, Accepts;
      if Accepts(before, s) {
        var last := WindowOf(before, s);
        assert (w + [last])[..|w|] == w;
        if before.smoothed != 0.0 {
          AverageIsBlend(before.smoothed, last);
        } else {
          StaysAtRate(0.0, Rate(last), last.seconds);
        }
      } else {
        assert Accepted(front) + [] == Accepted(front);
      }
    }
  }

  // ---- convergence --------------------------------------------------------

  ghost predicate Steady(bytes: int, at: real, s: Sample, rate: real) {
    s.at > at && (s.bytes - bytes) as real == rate * (s.at - at)
  }

  /** From `t` on, bytes flow at rate `rate` and the clock advances with every sample. */
  ghost predicate ConstantRate(t: State, samples: seq<Sample>, rate: real) {
    && (samples != [] ==> Steady(t.lastBytes, t.lastAt, samples[0], rate))
    && forall i :: 0 < i < |samples| ==> Steady(samples[i - 1].bytes, samples[i - 1].at, samples[i], rate)
  }

  function Distance(x: real, y: real): real {
    if x >= y then x - y else y - x
  }

  /** One sample at the true rate divides the error by (30+s)/30, or removes it. */
  lemma ErrorShrinks(smoothed: real, rate: real, s: real)
    requires s > 0.0 && smoothed != 0.0
    ensures (Average(smoothed, rate, s) - rate) * Factor(s) == smoothed - rate
  {
    var alpha := s / (s + WINDOW);
    var next := smoothed + alpha * (rate - smoothed);
    assert alpha * (s + WINDOW) == s;
    assert next - rate == (smoothed - rate) - alpha * (smoothed - rate);
    assert alpha * (smoothed - rate) * (s + WINDOW) == s * (smoothed - rate);
    assert (next - rate) * (s + WINDOW) == (smoothed - rate) * WINDOW;
  }

  lemma StaysAtRate(smoothed: real, rate: real, s: real)
    requires s > 0.0 && (smoothed == 0.0 || smoothed == rate)
    ensures Average(smoothed, rate, s) == rate
  {
  }

  lemma StaysPositive(smoothed: real, rate: real, s: real)
    requires smoothed > 0.0 && rate >= 0.0 && s > 0.0
    ensures Average(smoothed, rate, s) > 0.0
  {
    var alpha := s / (s + WINDOW);
    assert alpha * (s + WINDOW) == s && 0.0 < alpha < 1.0;
    assert smoothed + alpha * (rate - smoothed) == (1.0 - alpha) * smoothed + alpha * rate;
    assert (1.0 - alpha) * smoothed > 0.0 && alpha * rate >= 0.0;
  }

  /** When a run that starts at `from` ends. */
  function EndAt(from: real, samples: seq<Sample>): real {
    if samples == [] then from else samples[|samples| - 1].at
  }

  /** What one sample after a gap of s seconds divides the error by: (30+s)/30. */
  function Factor(s: real): (f: real)
    ensures f * WINDOW == WINDOW + s
  {
    1.0 + s / WINDOW
  }

  function Times(decay: real, gap: real): real {
    decay * Factor(gap)
  }

  /** What a division of time into samples divides the error by. */
  function Decay(from: real, samples: seq<Sample>): real {
    if samples == [] then 1.0
    else
      var front, s := samples[..|samples| - 1], samples[|samples| - 1];
      Times(Decay(from, front), s.at - EndAt(from, front))
  }

  ghost predicate Ordered(from: real, samples: seq<Sample>) {
    && (samples != [] ==> from < samples[0].at)
    && forall i :: 0 < i < |samples| ==> samples[i - 1].at < samples[i].at
  }

  /** (30+T)/30 * (30+s)/30 >= (30+T+s)/30: decay over parts is at least decay over the whole. */
  lemma {:induction false} DecayAtLeast(from: real, samples: seq<Sample>)
    requires Ordered(from, samples)
    ensures EndAt(from, samples) >= from
    ensures Decay(from, samples) >= Factor(EndAt(from, samples) - from)
  {
    if samples == [] {
      assert Factor(0.0) == 1.0;
    } else {
      var n := |samples| - 1;
      var front, s := samples[..n], samples[n];
      DecayAtLeast(from, front);
      assert n > 0 ==> front[n - 1] == samples[n - 1];
      OneMoreGap(Decay(from, front), EndAt(from, front) - from, s.at - EndAt(from, front));
    }
  }

  lemma OneMoreGap(d: real, total: real, gap: real)
    requires total >= 0.0 && gap > 0.0 && d >= Factor(total)
    ensures Times(d, gap) >= Factor(total + gap)
  {
    hide Factor;
    TwoGaps(total, gap);
    MulMonotone(Factor(total), d, Factor(gap));
  }

  lemma TwoGaps(a: real, b: real)
    requires a >= 0.0 && b > 0.0
    ensures Factor(a) >= 1.0 && Factor(b) > 1.0
    ensures Factor(a) * Factor(b) >= Factor(a + b) > 0.0
    ensures a > 0.0 ==> Factor(a) * Factor(b) > Factor(a + b)
  {
    hide Factor;
    Expand(Factor(a), Factor(b));
  }

  lemma Expand(p: real, q: real)
    requires p >= 1.0 && q > 1.0
    ensures p * q >= p + q - 1.0
    ensures p > 1.0 ==> p * q > p + q - 1.0
  {
    var x, y := p - 1.0, q - 1.0;
    assert p * q - (p + q - 1.0) == x * y;
    MulNonNegative(x, y);
    if p > 1.0 {
      MulStrict(0.0, x, y);
    }
  }

  /** The error a run leaves, exactly; none if the average was ever unset and a sample followed. */
  ghost predicate Residue(t: State, last: State, decay: real, rate: real) {
    && (last.smoothed == rate || (last.smoothed - rate) * decay == t.smoothed - rate)
    && (t.smoothed > 0.0 ==> last.smoothed > 0.0 && (last.smoothed - rate) * decay == t.smoothed - rate)
  }

  lemma {:induction false} ErrorOfRun(t: State, samples: seq<Sample>, rate: real)
    requires t.lastAt > 0.0 && rate >= 0.0 && ConstantRate(t, samples, rate)
    ensures var last := RunFrom(t, samples);
      && last.lastAt == EndAt(t.lastAt, samples)
      && last.lastBytes == (if samples == [] then t.lastBytes else samples[|samples| - 1].bytes)
      && last.lastAt > 0.0
      && Residue(t, last, Decay(t.lastAt, samples), rate)
      && (t.smoothed == 0.0 && samples != [] ==> last.smoothed == rate)
  {
    hide Rate, Average, Observed, Factor;
    if samples == [] {
      NoRun(t, rate);
    } else {
      var n := |samples| - 1;
      var front, s := samples[..n], samples[n];
      ErrorOfRun(t, front, rate);
      assert n > 0 ==> front[n - 1] == samples[n - 1];
      var before := RunFrom(t, front);
      SteadyStep(before, s, rate);
      ResidueStep(t, before, Observed(before, s), Decay(t.lastAt, front), rate, s.at - before.lastAt);
    }
  }

  lemma NoRun(t: State, rate: real)
    ensures Residue(t, t, 1.0, rate)
  {
  }

  lemma ResidueStep(t: State, before: State, last: State, decay: real, rate: real, gap: real)
    requires rate >= 0.0 && gap > 0.0 && Residue(t, before, decay, rate)
    requires last.smoothed == Average(before.smoothed, rate, gap)
    ensures Residue(t, last, Times(decay, gap), rate)
    ensures before.smoothed == 0.0 || before.smoothed == rate ==> last.smoothed == rate
  {
    hide Average;
    var k := Factor(gap);
    if before.smoothed == 0.0 || before.smoothed == rate {
      StaysAtRate(before.smoothed, rate, gap);
    } else {
      ErrorShrinks(before.smoothed, rate, gap);
      assert (last.smoothed - rate) * (decay * k) == (last.smoothed - rate) * k * decay;
    }
    if before.smoothed > 0.0 {
      StaysPositive(before.smoothed, rate, gap);
    }
  }

  lemma SteadyStep(t: State, s: Sample, rate: real)
    requires t.lastAt > 0.0 && rate >= 0.0 && Steady(t.lastBytes, t.lastAt, s, rate)
    ensures Accepts(t, s) && Observed(t, s).smoothed == Average(t.smoothed, rate, s.at - t.lastAt)
    ensures Observed(t, s).lastAt == s.at && Observed(t, s).lastBytes == s.bytes
  {
    hide Average;
    var gap := s.at - t.lastAt;
    MulNonNegative(rate, gap);
    QuotientIs((s.bytes - t.lastBytes) as real, gap, rate);
    assert Rate(WindowOf(t, s)) == rate;
  }

  lemma QuotientIs(x: real, y: real, q: real)
    requires y > 0.0 && x == q * y
    ensures x / y == q
  {
  }

  /** A factor moves out of a distance. */
  lemma DistanceScales(x: real, y: real, d: real, e: real)
    requires d > 0.0 && (x - y) * d == e
    ensures Distance(x, y) * d == Distance(e, 0.0)
  {
    if x >= y { MulNonNegative(x - y, d); } else { MulStrict(0.0, y - x, d); }
  }

  /** How far the average is off after `t` became `last`. */
  ghost predicate Closer(t: State, last: State, rate: real) {
    && last.lastAt >= t.lastAt
    && Distance(last.smoothed, rate) * (WINDOW + (last.lastAt - t.lastAt)) <= Distance(t.smoothed, rate) * WINDOW
  }

  lemma SteadyIsOrdered(t: State, samples: seq<Sample>, rate: real)
    requires ConstantRate(t, samples, rate)
    ensures Ordered(t.lastAt, samples)
  {
  }

  /**
   * Under a constant rate the error after a total time T is at most 30/(30+T)
   * of what it was, however the time was divided into samples.
   */
  lemma Converges(t: State, samples: seq<Sample>, rate: real)
    requires t.lastAt > 0.0 && rate >= 0.0 && ConstantRate(t, samples, rate)
    ensures var last := RunFrom(t, samples);
      && last.lastAt == (if samples == [] then t.lastAt else samples[|samples| - 1].at)
      && last.lastBytes == (if samples == [] then t.lastBytes else samples[|samples| - 1].bytes)
      && Closer(t, last, rate)
  {
    ErrorOfRun(t, samples, rate);
    SteadyIsOrdered(t, samples, rate);
    DecayAtLeast(t.lastAt, samples);
    CloserBy(t, RunFrom(t, samples), Decay(t.lastAt, samples), rate);
  }

  lemma CloserBy(t: State, last: State, decay: real, rate: real)
    requires last.lastAt >= t.lastAt && Residue(t, last, decay, rate)
    requires decay >= Factor(last.lastAt - t.lastAt)
    ensures Closer(t, last, rate)
  {
    if last.smoothed != rate {
      DistanceScales(last.smoothed, rate, decay, t.smoothed - rate);
      MulMonotone(Factor(last.lastAt - t.lastAt), decay, Distance(last.smoothed, rate));
    }
  }

  /** So the error at least halves in thirty seconds. */
  lemma HalvesInAWindow(t: State, samples: seq<Sample>, rate: real)
    requires t.lastAt > 0.0 && rate >= 0.0 && ConstantRate(t, samples, rate)
    requires RunFrom(t, samples).lastAt - t.lastAt >= 30.0
    ensures 2.0 * Distance(RunFrom(t, samples).smoothed, rate) <= Distance(t.smoothed, rate)
  {
    hide RunFrom, Closer, Distance, ConstantRate;
    Converges(t, samples, rate);
    HalvesWhenCloser(t, RunFrom(t, samples), rate);
  }

  lemma HalvesWhenCloser(t: State, last: State, rate: real)
    requires Closer(t, last, rate) && last.lastAt - t.lastAt >= WINDOW
    ensures 2.0 * Distance(last.smoothed, rate) <= Distance(t.smoothed, rate)
  {
    HalvesWhen(Distance(t.smoothed, rate), Distance(last.smoothed, rate), last.lastAt - t.lastAt);
  }

  lemma HalvesWhen(e0: real, e: real, total: real)
    requires e >= 0.0 && total >= WINDOW && e * (WINDOW + total) <= e0 * WINDOW
    ensures 2.0 * e <= e0
  {
    MulMonotone(2.0 * WINDOW, WINDOW + total, e);
    assert (WINDOW + total) * e == e * (WINDOW + total);
  }

  // ---- finer sampling -----------------------------------------------------

  function Without(samples: seq<Sample>, i: nat): seq<Sample>
    requires i < |samples|
  {
    samples[..i] + samples[i + 1..]
  }

  /** `coarse` is `fine` with some samples left out, never the last. */
  ghost predicate Thinned(fine: seq<Sample>, coarse: seq<Sample>)
    decreases |fine|
  {
    fine == coarse || exists i :: 0 <= i < |fine| - 1 && Thinned(Without(fine, i), coarse)
  }

  /** Leaving a sample out keeps the rate. */
  lemma WithoutIsSteady(t: State, fine: seq<Sample>, i: nat, rate: real)
    requires ConstantRate(t, fine, rate) && i < |fine| - 1
    ensures ConstantRate(t, Without(fine, i), rate)
  {
    var coarse := Without(fine, i);
    assert forall k :: 0 <= k < i ==> coarse[k] == fine[k];
    assert forall k :: i <= k < |coarse| ==> coarse[k] == fine[k + 1];
    var bytes, at := if i == 0 then t.lastBytes else fine[i - 1].bytes, if i == 0 then t.lastAt else fine[i - 1].at;
    assert Steady(bytes, at, fine[i], rate) && Steady(fine[i].bytes, fine[i].at, fine[i + 1], rate);
    SteadyTwice(bytes, at, fine[i], fine[i + 1], rate);
  }

  lemma SteadyTwice(bytes: int, at: real, s: Sample, next: Sample, rate: real)
    requires Steady(bytes, at, s, rate) && Steady(s.bytes, s.at, next, rate)
    ensures Steady(bytes, at, next, rate)
  {
    assert rate * (next.at - at) == rate * (next.at - s.at) + rate * (s.at - at);
  }

  lemma DecayOneMore(from: real, front: seq<Sample>, s: Sample)
    ensures Decay(from, front + [s]) == Times(Decay(from, front), s.at - EndAt(from, front))
  {
    hide Factor;
    assert (front + [s])[..|front|] == front;
  }

  lemma OrderedFront(from: real, front: seq<Sample>, s: Sample)
    requires Ordered(from, front + [s])
    ensures Ordered(from, front) && EndAt(from, front) < s.at
  {
    var all := front + [s];
    assert all[|front|] == s && forall i :: 0 <= i < |front| ==> all[i] == front[i];
  }

  /** Leaving a sample out forgets strictly less. */
  lemma {:induction false} WithoutDecaysLess(from: real, fine: seq<Sample>, i: nat)
    requires Ordered(from, fine) && i < |fine| - 1
    ensures EndAt(from, Without(fine, i)) == EndAt(from, fine)
    ensures 0.0 < Decay(from, Without(fine, i)) < Decay(from, fine)
    decreases |fine|
  {
    hide Factor, Times, Ordered, Decay;
    var n := |fine| - 1;
    var front, s := fine[..n], fine[n];
    assert fine == front + [s];
    OrderedFront(from, front, s);
    DecayOneMore(from, front, s);
    if i < n - 1 {
      WithoutDecaysLess(from, front, i);
      assert Without(fine, i) == Without(front, i) + [s];
      DecayOneMore(from, Without(front, i), s);
      SameGap(Decay(from, Without(front, i)), Decay(from, front), s.at - EndAt(from, front));
    } else {
      assert front == fine[..i] + [fine[i]] && Without(fine, i) == fine[..i] + [s];
      WithoutLastButOne(from, fine[..i], fine[i], s);
    }
  }

  lemma WithoutLastButOne(from: real, before: seq<Sample>, m: Sample, s: Sample)
    requires Ordered(from, before + [m]) && m.at < s.at
    ensures 0.0 < Decay(from, before + [s]) < Times(Decay(from, before + [m]), s.at - m.at)
  {
    hide Factor, Times, Ordered, Decay;
    OrderedFront(from, before, m);
    DecayOneMore(from, before, m);
    DecayOneMore(from, before, s);
    DecayIsPositive(from, before);
    JoinedGaps(Decay(from, before), m.at - EndAt(from, before), s.at - m.at);
    assert s.at - EndAt(from, before) == m.at - EndAt(from, before) + (s.at - m.at);
  }

  lemma DecayIsPositive(from: real, samples: seq<Sample>)
    requires Ordered(from, samples)
    ensures Decay(from, samples) > 0.0
  {
    DecayAtLeast(from, samples);
  }

  lemma SameGap(c: real, d: real, gap: real)
    requires 0.0 < c < d && gap > 0.0
    ensures 0.0 < Times(c, gap) < Times(d, gap)
  {
    TwoGaps(0.0, gap);
    hide Factor;
    MulStrict(c, d, Factor(gap));
    MulStrict(0.0, c, Factor(gap));
  }

  lemma JoinedGaps(d: real, a: real, b: real)
    requires d > 0.0 && a > 0.0 && b > 0.0
    ensures 0.0 < Times(d, a + b) < Times(Times(d, a), b)
  {
    var p, q, r := Factor(a), Factor(b), Factor(a + b);
    TwoGaps(a, b);
    MulStrict(r, p * q, d);
    assert d * p * q == p * q * d;
    MulStrict(0.0, r, d);
  }

  lemma {:induction false} ThinnedFacts(t: State, fine: seq<Sample>, coarse: seq<Sample>, rate: real)
    requires ConstantRate(t, fine, rate) && Thinned(fine, coarse)
    ensures ConstantRate(t, coarse, rate) && EndAt(t.lastAt, coarse) == EndAt(t.lastAt, fine)
    ensures coarse == [] <==> fine == []
    ensures 0.0 < Decay(t.lastAt, coarse) <= Decay(t.lastAt, fine)
    ensures fine != coarse ==> Decay(t.lastAt, coarse) < Decay(t.lastAt, fine)
    decreases |fine|
  {
    SteadyIsOrdered(t, fine, rate);
    if fine == coarse {
      DecayAtLeast(t.lastAt, fine);
    } else {
      var i :| 0 <= i < |fine| - 1 && Thinned(Without(fine, i), coarse);
      hide ConstantRate, Ordered, Decay, Thinned;
      WithoutIsSteady(t, fine, i, rate);
      WithoutDecaysLess(t.lastAt, fine, i);
      ThinnedFacts(t, Without(fine, i), coarse, rate);
    }
  }

  lemma SmallerFactor(p: real, q: real, dx: real, dy: real)
    requires p >= 0.0 && 0.0 < dy <= dx && p * dx == q * dy
    ensures p <= q
  {
    MulMonotone(dy, dx, p);
    if p > q {
      MulStrict(q, p, dy);
    }
  }

  lemma LargerDivisor(x: real, y: real, rate: real, e: real, dx: real, dy: real)
    requires 0.0 < dy <= dx && (x - rate) * dx == e && (y - rate) * dy == e
    ensures Distance(x, rate) <= Distance(y, rate)
    ensures x == y <==> e == 0.0 || dx == dy
  {
    DistanceScales(x, rate, dx, e);
    DistanceScales(y, rate, dy, e);
    SmallerFactor(Distance(x, rate), Distance(y, rate), dx, dy);
    if x == y && e != 0.0 {
      assert (x - rate) * (dx - dy) == 0.0;
    }
  }

  /**
   * The interval does matter: over the same stretch a division forgets at least
   * as much as any it refines, and strictly more unless there is no error, no
   * average yet, or no sample left out.
   */
  lemma FinerSamplingForgetsMore(t: State, fine: seq<Sample>, coarse: seq<Sample>, rate: real)
    requires t.lastAt > 0.0 && t.smoothed >= 0.0 && rate >= 0.0
    requires ConstantRate(t, fine, rate) && Thinned(fine, coarse)
    ensures var f, c := RunFrom(t, fine), RunFrom(t, coarse);
      && f.lastAt == c.lastAt && f.lastBytes == c.lastBytes
      && Distance(f.smoothed, rate) <= Distance(c.smoothed, rate)
      && (f.smoothed == c.smoothed <==> t.smoothed == rate || t.smoothed == 0.0 || fine == coarse)
  {
    hide RunFrom, Decay, Thinned, ConstantRate;
    ThinnedFacts(t, fine, coarse, rate);
    ErrorOfRun(t, fine, rate);
    ErrorOfRun(t, coarse, rate);
    ThinnedLast(fine, coarse);
    if t.smoothed > 0.0 {
      LargerDivisor(RunFrom(t, fine).smoothed, RunFrom(t, coarse).smoothed, rate, t.smoothed - rate,
        Decay(t.lastAt, fine), Decay(t.lastAt, coarse));
    } else if fine == [] {
      assert fine == coarse;
    }
  }

  lemma {:induction false} ThinnedLast(fine: seq<Sample>, coarse: seq<Sample>)
    requires Thinned(fine, coarse)
    ensures fine != [] ==> coarse != [] && coarse[|coarse| - 1] == fine[|fine| - 1]
    decreases |fine|
  {
    if fine != coarse {
      var i :| 0 <= i < |fine| - 1 && Thinned(Without(fine, i), coarse);
      ThinnedLast(Without(fine, i), coarse);
    }
  }

  /** Every division refines the single sample at its end. */
  lemma {:induction false} OneSampleIsCoarsest(fine: seq<Sample>)
    requires fine != []
    ensures Thinned(fine, [fine[|fine| - 1]])
    decreases |fine|
  {
    if |fine| > 1 {
      assert Without(fine, 0) == fine[1..];
      OneSampleIsCoarsest(fine[1..]);
      assert fine[1..][|fine| - 2] == fine[|fine| - 1];
      assert Thinned(Without(fine, 0), [fine[|fine| - 1]]);
    }
  }

  /** An idle minute after a rate of 1: one sample leaves 1/3 of it, two leave 1/4. */
  lemma FinerSamplingWitness()
    ensures Average(1.0, 0.0, 60.0) == 1.0 / 3.0
    ensures Average(Average(1.0, 0.0, 30.0), 0.0, 30.0) == 1.0 / 4.0
  {
    assert Average(1.0, 0.0, 30.0) == 0.5;
  }
}
