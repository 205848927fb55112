/** Running per-signal statistics of the proctoring callback: the head-pose,
    eye-gaze and micro-movement sample lists with their average and maximum,
    the micro-movement sample itself, and the audio "speaking" flag. */
module Metrics {
  import opened Maybe

  /** Sum of the samples, folded left to right as `reduce((a, b) => a + b, 0)` does. */
  function Sum(s: seq<real>): real
  {
    if |s| == 0 then 0.0 else Sum(s[..|s| - 1]) + s[|s| - 1]
  }

  lemma SumAppend(s: seq<real>, x: real)
    ensures Sum(s + [x]) == Sum(s) + x
  {
  }

  /** The largest sample, as `Math.max(...samples)` reports it. */
  function Max(s: seq<real>): (m: real)
    requires |s| > 0
    ensures m in s
    ensures forall i :: 0 <= i < |s| ==> s[i] <= m
  {
    if |s| == 1 then s[0]
    else
      var m' := Max(s[..|s| - 1]);
      assert forall i :: 0 <= i < |s| - 1 ==> s[..|s| - 1][i] == s[i];
      if s[|s| - 1] > m' then s[|s| - 1] else m'
  }

  lemma CancelPositive(a: real, b: real, n: real)
    requires n > 0.0 && a * n <= b * n
    ensures a <= b
  {
  }

  lemma DivAbove(s: real, n: real, k: real)
    requires n > 0.0
    ensures s / n > k <==> s > k * n
  {
  }

  /** A sum of samples none above `bound` is at most |s| copies of it; with the
      maximum as the bound, the average never exceeds the maximum. */
  lemma {:induction false} SumBound(s: seq<real>, bound: real)
    requires forall i :: 0 <= i < |s| ==> s[i] <= bound
    ensures Sum(s) <= (|s| as real) * bound
  {
    if |s| > 0 {
      var p := s[..|s| - 1];
      assert forall i :: 0 <= i < |p| ==> p[i] == s[i];
      SumBound(p, bound);
      var k := |p| as real;
      assert (|s| as real) == k + 1.0;
      assert (k + 1.0) * bound == k * bound + bound;
    }
  }

  /** The mean of a non-empty sample list: the value whose |s| copies add up to the sum. */
  function Average(s: seq<real>): (a: real)
    requires |s| > 0
    ensures a * (|s| as real) == Sum(s)
  {
    Sum(s) / (|s| as real)
  }

  /** An average of samples none above `bound` is itself at most `bound`. */
  lemma AverageAtMostBound(s: seq<real>, bound: real)
    requires |s| > 0
    requires forall i :: 0 <= i < |s| ==> s[i] <= bound
    ensures Average(s) <= bound
  {
    var n := |s| as real;
    SumBound(s, bound);
    CancelPositive(Average(s), bound, n);
  }

  /** One accumulator: the sample list with the average and maximum last written
      to the statistics record (both start at 0 before any sample). */
  datatype Metric = Metric(samples: seq<real>, avg: real, max: real)

  const Empty := Metric([], 0.0, 0.0)

  /** The stored average and maximum agree with the sample list. */
  ghost predicate Consistent(m: Metric)
  {
    if |m.samples| == 0 then m.avg == 0.0 && m.max == 0.0
    else m.avg == Average(m.samples) && m.max == Max(m.samples)
  }

  /** Push one sample and recompute the average and the maximum. */
  function Observe(m: Metric, x: real): (r: Metric)
    ensures r.samples == m.samples + [x]
    ensures Sum(r.samples) == Sum(m.samples) + x
    ensures Consistent(r)
  {
    var s := m.samples + [x];
    SumAppend(m.samples, x);
    Metric(s, Average(s), Max(s))
  }

  /** Observing a sample never lowers the reported maximum, and the reported
      average never exceeds it. */
  lemma ObserveMonotone(m: Metric, x: real)
    requires Consistent(m)
    ensures |m.samples| > 0 ==> Observe(m, x).max >= m.max
    ensures Observe(m, x).max >= x
    ensures Observe(m, x).avg <= Observe(m, x).max
  {
    var r := Observe(m, x);
    if |m.samples| > 0 {
      assert m.max in r.samples by { assert Max(m.samples) in m.samples; }
    }
    assert r.samples[|r.samples| - 1] == x;
    AverageAtMostBound(r.samples, r.max);
  }

  // ---------------- speaking flag ----------------

  type Byte = x: int | 0 <= x < 256

  /** Mean spectrum magnitude above which the page reports speaking. */
  const SpeakingThreshold: int := 8

  function ByteSum(data: seq<Byte>): nat
  {
    if |data| == 0 then 0 else ByteSum(data[..|data| - 1]) + data[|data| - 1]
  }

  /** `avg > 8` over the byte spectrum, written without division. An empty
      spectrum gives NaN in JavaScript, which compares false. */
  function Speaking(data: seq<Byte>): (b: bool)
    ensures b ==> |data| > 0 && ByteSum(data) > SpeakingThreshold
  {
    ByteSum(data) > SpeakingThreshold * |data|
  }

  /** The division-free test agrees with comparing the real mean to the threshold. */
  lemma SpeakingIffMeanAboveThreshold(data: seq<Byte>)
    ensures Speaking(data) <==>
      |data| > 0 && (ByteSum(data) as real) / (|data| as real) > SpeakingThreshold as real
  {
    if |data| > 0 {
      DivAbove(ByteSum(data) as real, |data| as real, SpeakingThreshold as real);
    }
  }

  /** The sum of bins none above the threshold stays at or below threshold times length. */
  lemma {:induction false} QuietBinsBound(data: seq<Byte>)
    requires forall i :: 0 <= i < |data| ==> data[i] <= SpeakingThreshold
    ensures ByteSum(data) <= SpeakingThreshold * |data|
  {
    if |data| > 0 {
      QuietBinsBound(data[..|data| - 1]);
    }
  }

  /** The flag is raised only when at least one frequency bin exceeds the threshold. */
  lemma SpeakingNeedsLoudBin(data: seq<Byte>)
    requires Speaking(data)
    ensures exists i :: 0 <= i < |data| && data[i] > SpeakingThreshold
  {
    if forall i :: 0 <= i < |data| ==> data[i] <= SpeakingThreshold {
      QuietBinsBound(data);
    }
  }

  // ---------------- micro-movement sample ----------------

  /** A landmark projected to its normalised x and y coordinates. */
  datatype Point = Point(x: real, y: real)

  /** Sum over the first |face| landmarks of the distance to the same landmark of
      the previous frame. `dist` stands for the pixel-space Euclidean distance
      `Math.sqrt(dx*dx + dy*dy)`, with dx and dy scaled by the canvas size. */
  function Displacement(face: seq<Point>, last: seq<Point>, dist: (Point, Point) -> real): real
    requires |face| <= |last|
  {
    if |face| == 0 then 0.0
    else Displacement(face[..|face| - 1], last, dist) + dist(face[|face| - 1], last[|face| - 1])
  }

  /** A landmark list compared with (a prefix of) itself has no displacement. */
  lemma {:induction false} DisplacementToSelf(face: seq<Point>, last: seq<Point>, dist: (Point, Point) -> real)
    requires forall p :: dist(p, p) == 0.0
    requires |face| <= |last|
    requires forall j :: 0 <= j < |face| ==> face[j] == last[j]
    ensures Displacement(face, last, dist) == 0.0
  {
    if |face| > 0 {
      var i := |face| - 1;
      DisplacementToSelf(face[..i], last, dist);
      assert dist(face[i], last[i]) == 0.0;
    }
  }

  /** Mean landmark displacement of `face` against the previous frame's landmarks.
      With no previous frame the face is compared with itself, so the first sample
      is 0; the face becomes the new previous frame. */
  function MicroStep(prev: Option<seq<Point>>, face: seq<Point>, dist: (Point, Point) -> real)
    : (r: (real, seq<Point>))
    requires forall p :: dist(p, p) == 0.0
    requires |face| > 0
    requires prev.Some? ==> |prev.value| == |face|
    ensures r.1 == face
    ensures prev.None? || prev == Some(face) ==> r.0 == 0.0
  {
    var last := prev.GetOr(face);
    DisplacementToSelf(face, face, dist);
    (Displacement(face, last, dist) / (|face| as real), face)
  }
}
