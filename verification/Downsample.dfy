/** Thinning a candle list by a uniform stride, in exact arithmetic, always keeping the last candle. */
module Downsample {
  import opened Arithmetic
  import opened Sequences

  /** `int(index * (n / m))`. */
  function SampleIndex(n: nat, m: nat, index: nat): nat
    requires m > 0
  {
    index * n / m
  }

  function CeilDiv(n: nat, m: nat): nat
    requires m > 0
  {
    (n + m - 1) / m
  }

  /** The positions that end up in the sample. */
  function Positions(n: nat, m: nat): seq<nat>
    requires m > 0 && n > 0
  {
    seq(m, i requires 0 <= i < m => if i == m - 1 then n - 1 else SampleIndex(n, m, i))
  }

  lemma {:induction false} CeilCovers(n: nat, m: nat)
    requires m > 0
    ensures n <= CeilDiv(n, m) * m
  {
    var c := CeilDiv(n, m);
    DivBounds(n + m - 1, m, c + 1);
    assert (c + 1) * m == c * m + m;
  }

  /** Two consecutive sampled positions are at least 1 and at most `ceil(n/m)` apart. */
  lemma {:induction false} StrideGap(n: nat, m: nat, i: nat)
    requires 0 < m <= n
    ensures 1 <= SampleIndex(n, m, i + 1) - SampleIndex(n, m, i) <= CeilDiv(n, m)
  {
    var a, c := i * n, CeilDiv(n, m);
    var q := a / m;
    assert (i + 1) * n == a + n;
    CeilCovers(n, m);
    DivBounds(a, m, q);
    DivBounds(a, m, q + 1);
    assert (q + 1) * m == q * m + m;
    DivBounds(a + n, m, q + 1);
    DivBounds(a + n, m, q + c + 1);
    assert (q + c + 1) * m == (q + 1) * m + c * m;
  }

  /** The replaced last position lies after the one before it, by less than two strides. */
  lemma {:induction false} LastGap(n: nat, m: nat)
    requires 2 <= m < n
    ensures 1 <= n - 1 - SampleIndex(n, m, m - 2) < 2 * CeilDiv(n, m)
    ensures SampleIndex(n, m, m - 1) < n - 1
  {
    var c := CeilDiv(n, m);
    CeilCovers(n, m);
    assert (m - 2) * n == m * n - 2 * n && (m - 1) * n == m * n - n;
    assert (n - 2 * c) * m == n * m - 2 * (c * m);
    assert n * m == m * n;
    DivBounds((m - 2) * n, m, n - 2 * c);
    assert (n - 1) * m == n * m - m;
    DivBounds((m - 1) * n, m, n - 1);
    DivBounds((m - 2) * n, m, n - 1);
  }

  lemma {:induction false} PositionsInRange(n: nat, m: nat, i: nat)
    requires 0 < m < n && i < m
    ensures i * n / m < n
  {
    DivBounds(i * n, m, n);
    assert i * n < m * n by {
      assert (m - i) * n == m * n - i * n && (m - i) * n > 0;
    }
  }

  /** Every position but the last is the exact stride, rounded down. */
  lemma {:induction false} StrideRoundsDown(n: nat, m: nat, i: nat)
    requires 0 < m && i + 1 < m < n
    ensures Positions(n, m)[i] * m <= i * n < (Positions(n, m)[i] + 1) * m
  {
    var p := Positions(n, m)[i];
    DivBounds(i * n, m, p);
    DivBounds(i * n, m, p + 1);
  }

  /** Thinning `n` candles to `m`, with `n > m >= 2`, keeps exactly `m`, at strictly increasing
      positions, the first and the last among them, every gap but the last at most `ceil(n/m)` and
      the last below twice that. */
  lemma {:induction false} SampleShape(n: nat, m: nat)
    requires 2 <= m < n
    ensures var ps := Positions(n, m);
            && |ps| == m && ps[0] == 0 && ps[m - 1] == n - 1
            && Increasing(ps)
            && (forall i :: 0 <= i < m - 2 ==> ps[i + 1] - ps[i] <= CeilDiv(n, m))
            && ps[m - 1] - ps[m - 2] < 2 * CeilDiv(n, m)
  {
    var ps := Positions(n, m);
    LastGap(n, m);
    assert 0 * n / m == 0;
    forall k | 0 <= k < |ps| - 1
      ensures ps[k] < ps[k + 1] && (k < m - 2 ==> ps[k + 1] - ps[k] <= CeilDiv(n, m))
    {
      StrideGap(n, m, k);
    }
    forall i, j | 0 <= i < j < |ps|
      ensures ps[i] < ps[j]
    {
      StepwiseIncreasing(ps, i, j);
    }
  }

  predicate SampledAt<T(==)>(candles: seq<T>, ps: seq<nat>, sampled: seq<T>) {
    |sampled| == |ps| && forall i :: 0 <= i < |ps| ==> ps[i] < |candles| && sampled[i] == candles[ps[i]]
  }

  /** A list that is short enough, or a non-positive limit, is returned as it is; otherwise the
      sample at `Positions`. */
  method DownsampleCandles<T(==)>(candles: seq<T>, maxPoints: int) returns (sampled: seq<T>)
    ensures maxPoints <= 0 || |candles| <= maxPoints ==> sampled == candles
    ensures 0 < maxPoints < |candles| ==> SampledAt(candles, Positions(|candles|, maxPoints), sampled)
  {
    if maxPoints <= 0 || |candles| <= maxPoints {
      return candles;
    }
    var n := |candles|;
    forall i: nat | i < maxPoints
      ensures i * n / maxPoints < n
    {
      PositionsInRange(n, maxPoints, i);
    }
    sampled := seq(maxPoints, index requires 0 <= index < maxPoints => candles[SampleIndex(n, maxPoints, index)]);
    if sampled[maxPoints - 1] != candles[n - 1] {
      sampled := sampled[maxPoints - 1 := candles[n - 1]];
    }
  }
}
