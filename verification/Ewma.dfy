/**
 Online z-score detection (services/anomaly-detector/stats.py).

 The tracker keeps a mean and a variance in constant space. The theorems say
 what those two numbers are: the mean and the variance of the whole series
 under geometrically decaying weights.
 */
module Ewma {
  import opened Wrappers
  import opened Moments
  import opened RealArith

  datatype Baseline = Fresh | Baseline(mean: real, variance: real, count: nat)

  function NextMean(alpha: real, mean: real, delta: real): real {
    mean + alpha * delta
  }

  function NextVariance(alpha: real, variance: real, delta: real): real {
    (1.0 - alpha) * (variance + alpha * delta * delta)
  }

  /** A difference in units of the standard deviation, or zero while there is none. */
  function Standardized(delta: real, stddev: real): real {
    if stddev > 0.0 then delta / stddev else 0.0
  }

  /** What one tracker update leaves behind. */
  function Fold(alpha: real, b: Baseline, x: real): Baseline {
    match b
    case Fresh => Baseline(x, 0.0, 1)
    case Baseline(mean, variance, count) =>
      var delta := x - mean;
      Baseline(NextMean(alpha, mean, delta), NextVariance(alpha, variance, delta), count + 1)
  }

  /** The sample's deviation from the baseline that was in place before it arrived. */
  function ZScore(sqrt: real -> real, b: Baseline, x: real): real {
    match b
    case Fresh => 0.0
    case Baseline(mean, variance, _) => Standardized(x - mean, sqrt(variance))
  }

  function Run(alpha: real, xs: seq<real>): Baseline {
    if xs == [] then Fresh else Fold(alpha, Run(alpha, xs[..|xs|-1]), xs[|xs|-1])
  }

  /** The pairs (z-score, sample count) that successive updates return. */
  function Readings(alpha: real, sqrt: real -> real, xs: seq<real>): seq<(real, nat)> {
    if xs == [] then []
    else
      var b, x := Run(alpha, xs[..|xs|-1]), xs[|xs|-1];
      Readings(alpha, sqrt, xs[..|xs|-1]) + [(ZScore(sqrt, b, x), SampleCount(Fold(alpha, b, x)))]
  }

  function SampleCount(b: Baseline): nat {
    if b.Fresh? then 0 else b.count
  }

  class EwmaTracker {
    const alpha: real
    var mean: real
    var variance: real
    var sampleCount: nat
    var initialized: bool

    /** The baseline the fields stand for. */
    function View(): Baseline
      reads this
    {
      if initialized then Baseline(mean, variance, sampleCount) else Fresh
    }

    constructor (alpha: real)
      ensures this.alpha == alpha && View() == Fresh
    {
      this.alpha := alpha;
      mean, variance, sampleCount, initialized := 0.0, 0.0, 0, false;
    }

    method Update(value: real, sqrt: real -> real) returns (zScore: real, count: nat)
      modifies this
      ensures View() == Fold(alpha, old(View()), value)
      ensures zScore == ZScore(sqrt, old(View()), value)
      ensures count == SampleCount(View())
    {
      if !initialized {
        mean := value;
        variance := 0.0;
        initialized := true;
        sampleCount := 1;
        return 0.0, sampleCount;
      }
      var stddev := sqrt(variance);
      zScore := if stddev > 0.0 then (value - mean) / stddev else 0.0;
      var delta := value - mean;
      mean := mean + alpha * delta;
      variance := (1.0 - alpha) * (variance + alpha * delta * delta);
      sampleCount := sampleCount + 1;
      return zScore, sampleCount;
    }
  }

  // ---- Exactness -------------------------------------------------------------

  function Power(r: real, k: nat): real {
    if k == 0 then 1.0 else r * Power(r, k - 1)
  }

  /** Weight of sample i among n: alpha(1-alpha)^(n-1-i), the remainder on the first sample. */
  function Weight(alpha: real, n: nat, i: nat): real
    requires i < n
  {
    if i == 0 then Power(1.0 - alpha, n - 1) else alpha * Power(1.0 - alpha, n - 1 - i)
  }

  function Weights(alpha: real, n: nat): (ws: seq<real>)
    ensures |ws| == n
  {
    seq(n, i requires 0 <= i < n => Weight(alpha, n, i))
  }

  function Scaled(r: real, ws: seq<real>): (s: seq<real>)
    ensures |s| == |ws| && forall i :: 0 <= i < |ws| ==> s[i] == Times(r, ws[i])
  {
    seq(|ws|, i requires 0 <= i < |ws| => Times(r, ws[i]))
  }

  /** One more sample scales every older weight by 1-alpha. */
  lemma WeightsStep(alpha: real, n: nat)
    requires n > 0
    ensures Weights(alpha, n + 1) == Scaled(1.0 - alpha, Weights(alpha, n)) + [alpha]
  {
    var next, scaled := Weights(alpha, n + 1), Scaled(1.0 - alpha, Weights(alpha, n)) + [alpha];
    forall i | 0 <= i < n + 1
      ensures next[i] == scaled[i]
    {
      if i == n {
        assert Power(1.0 - alpha, 0) == 1.0;
      } else {
        WeightStep(alpha, n, i);
      }
    }
  }

  lemma WeightStep(alpha: real, n: nat, i: nat)
    requires i < n
    ensures Weight(alpha, n + 1, i) == Times(1.0 - alpha, Weight(alpha, n, i))
  {
    var r, k := 1.0 - alpha, n - 1 - i;
    assert Power(r, k + 1) == r * Power(r, k);
    Swap(alpha, r, Power(r, k), Power(r, k + 1));
  }

  lemma Swap(a: real, r: real, p: real, p': real)
    requires p' == r * p
    ensures a * p' == r * (a * p)
  {
  }

  lemma {:induction false} ScaledMoments(r: real, ws: seq<real>, xs: seq<real>)
    requires |ws| == |xs|
    ensures Dot(Scaled(r, ws), xs) == Times(r, Dot(ws, xs))
    ensures Spread(Scaled(r, ws), xs, 0.0) == Times(r, Spread(ws, xs, 0.0))
    ensures Sum(Scaled(r, ws)) == Times(r, Sum(ws))
  {
    var n := |xs|;
    if n == 0 {
    } else {
      ScaledMoments(r, ws[..n-1], xs[..n-1]);
      var s := Scaled(r, ws);
      assert s[..n-1] == Scaled(r, ws[..n-1]);
      ScaleStep(r, Dot(ws[..n-1], xs[..n-1]), ws[n-1], xs[n-1], Dot(ws, xs), s[n-1]);
      ScaleStep(r, Spread(ws[..n-1], xs[..n-1], 0.0), ws[n-1], Square(xs[n-1] - 0.0), Spread(ws, xs, 0.0), s[n-1]);
      Distribute(r, Sum(ws[..n-1]), ws[n-1]);
    }
  }

  lemma ScaleStep(r: real, d: real, w: real, x: real, d': real, w': real)
    requires d' == d + Times(w, x) && w' == Times(r, w)
    ensures Times(r, d') == Times(r, d) + Times(w', x)
  {
  }

  /** How the three weighted sums move when x arrives after ys. */
  lemma MomentsStep(alpha: real, ys: seq<real>, x: real)
    requires ys != []
    ensures var ws, ws', xs := Weights(alpha, |ys|), Weights(alpha, |ys| + 1), ys + [x];
            && Dot(ws', xs) == Times(1.0 - alpha, Dot(ws, ys)) + Times(alpha, x)
            && Spread(ws', xs, 0.0) == Times(1.0 - alpha, Spread(ws, ys, 0.0)) + Times(alpha, Square(x - 0.0))
            && Sum(ws') == Times(1.0 - alpha, Sum(ws)) + alpha
  {
    hide *;
    var ws := Weights(alpha, |ys|);
    var older := Scaled(1.0 - alpha, ws);
    WeightsStep(alpha, |ys|);
    ScaledMoments(1.0 - alpha, ws, ys);
    MomentsAppend(older, ys, alpha, x);
  }

  /** After any series the tracker holds the weighted mean and the weighted variance of all of it. */
  lemma {:induction false} RunIsWeightedMoments(alpha: real, xs: seq<real>)
    requires xs != []
    ensures var ws, b := Weights(alpha, |xs|), Run(alpha, xs);
            && b.Baseline? && b.count == |xs|
            && Sum(ws) == 1.0
            && b.mean == Dot(ws, xs)
            && b.variance == Spread(ws, xs, b.mean)
  {
    hide Fold, Times, Square, Dot, Spread, Sum, Weights;
    var n := |xs|;
    if n == 1 {
      SingleSample(alpha, xs);
    } else {
      var ys, x := xs[..n-1], xs[n-1];
      RunIsWeightedMoments(alpha, ys);
      MomentsStep(alpha, ys, x);
      assert ys + [x] == xs;
      var ws, ws' := Weights(alpha, n - 1), Weights(alpha, n);
      var b, b' := Run(alpha, ys), Run(alpha, xs);
      CentralMoment(ws, ys, b.mean);
      VarianceStep(alpha, b, Spread(ws, ys, 0.0), Sum(ws), x, b', Dot(ws', xs), Spread(ws', xs, 0.0), Sum(ws'));
      CentralMoment(ws', xs, b'.mean);
    }
  }

  lemma SingleSample(alpha: real, xs: seq<real>)
    requires |xs| == 1
    ensures Run(alpha, xs) == Baseline(xs[0], 0.0, 1)
    ensures var ws := Weights(alpha, 1);
            Sum(ws) == 1.0 && Dot(ws, xs) == xs[0] && Spread(ws, xs, xs[0]) == 0.0
  {
    var ws := Weights(alpha, 1);
    assert Power(1.0 - alpha, 0) == 1.0;
    assert ws == [1.0];
    assert xs[..0] == [] && ws[..0] == [];
  }

  lemma VarianceStep(alpha: real, b: Baseline, sq: real, t: real, x: real,
                     b': Baseline, d': real, sq': real, t': real)
    requires b.Baseline? && b' == Fold(alpha, b, x)
    requires b.variance == sq - Square(b.mean) && t == 1.0
    requires d' == Times(1.0 - alpha, b.mean) + Times(alpha, x)
    requires sq' == Times(1.0 - alpha, sq) + Times(alpha, Square(x - 0.0))
    requires t' == Times(1.0 - alpha, t) + alpha
    ensures b'.Baseline? && b'.count == b.count + 1
    ensures t' == 1.0 && b'.mean == d' && b'.variance == sq' - Square(b'.mean)
  {
    hide Times, Square, NextMean, NextVariance;
    MeanAlgebra(alpha, b.mean, x);
    VarianceAlgebra(alpha, b.mean, x, sq);
    WeightAlgebra(alpha);
  }

  lemma MeanAlgebra(a: real, m: real, x: real)
    ensures NextMean(a, m, x - m) == Times(1.0 - a, m) + Times(a, x)
  {
  }

  lemma VarianceAlgebra(a: real, m: real, x: real, sq: real)
    ensures NextVariance(a, sq - Square(m), x - m)
         == Times(1.0 - a, sq) + Times(a, Square(x - 0.0)) - Square(NextMean(a, m, x - m))
  {
    hide Times, Square, NextMean, NextVariance;
    var d := x - m;
    var spread := Times(a, Square(d));
    VarianceProducts(a, sq, m, d);
    Complement(a, Square(m));
    Complement(a, spread);
    MeanSquare(a, m, d);
    SquareOfSum(m, d);
    assert Square(x) == Square(m) + (2.0 * Times(m, d) + Square(d)) && x - 0.0 == x;
    TimesAdds(a, Square(m), 2.0 * Times(m, d) + Square(d));
    TimesAdds(a, 2.0 * Times(m, d), Square(d));
    DoubleFactor(a, Times(m, d));
  }

  lemma VarianceProducts(a: real, sq: real, m: real, d: real)
    ensures NextVariance(a, sq - Square(m), d)
         == Times(1.0 - a, sq) - Times(1.0 - a, Square(m)) + Times(1.0 - a, Times(a, Square(d)))
  {
    hide Times, Square;
    var b := 1.0 - a;
    NextVarianceIs(a, sq - Square(m), d);
    TimesAdds(b, sq - Square(m), Times(a, Square(d)));
    TimesAdds(b, sq - Square(m), Square(m));
  }

  lemma NextVarianceIs(a: real, v: real, d: real)
    ensures NextVariance(a, v, d) == Times(1.0 - a, v + Times(a, Square(d)))
  {
    assert a * d * d == a * (d * d);
  }

  lemma MeanSquare(a: real, m: real, d: real)
    ensures Square(NextMean(a, m, d)) == Square(m) + 2.0 * Times(a, Times(m, d)) + Times(a, Times(a, Square(d)))
  {
    hide Times, Square;
    assert NextMean(a, m, d) == m + Times(a, d) by { TimesIs(a, d); }
    SquareOfSum(m, Times(a, d));
    Regroup(a, m, d);
  }

  lemma TimesIs(a: real, b: real)
    ensures Times(a, b) == a * b
  {
  }

  lemma Regroup(a: real, m: real, d: real)
    ensures Times(m, Times(a, d)) == Times(a, Times(m, d))
    ensures Square(Times(a, d)) == Times(a, Times(a, Square(d)))
  {
    assert m * (a * d) == a * (m * d);
    var ad := a * d;
    assert ad * (a * d) == a * (ad * d);
    assert ad * d == a * (d * d);
  }

  lemma WeightAlgebra(a: real)
    ensures Times(1.0 - a, 1.0) + a == 1.0
  {
  }

  lemma {:induction false} PowerNonNegative(r: real, k: nat)
    requires r >= 0.0
    ensures Power(r, k) >= 0.0
  {
    if k == 0 {
    } else {
      PowerNonNegative(r, k - 1);
      ProductNonNegative(r, Power(r, k - 1));
    }
  }

  lemma WeightsNonNegative(alpha: real, n: nat)
    requires 0.0 <= alpha <= 1.0
    ensures NonNegative(Weights(alpha, n))
  {
    forall i | 0 <= i < n
      ensures Weight(alpha, n, i) >= 0.0
    {
      PowerNonNegative(1.0 - alpha, n - 1 - i);
      ProductNonNegative(alpha, Power(1.0 - alpha, n - 1 - i));
    }
  }

  /** Mean within [lo, hi], and variance no more than that mean allows. */
  ghost predicate Inside(b: Baseline, lo: real, hi: real) {
    && b.Baseline? && lo <= b.mean <= hi
    && 0.0 <= b.variance <= (hi - b.mean) * (b.mean - lo) <= (hi - lo) * (hi - lo) / 4.0
  }

  /** The baseline stays inside the range of the data, and so does its spread. */
  lemma RunBounds(alpha: real, xs: seq<real>, lo: real, hi: real)
    requires 0.0 <= alpha <= 1.0 && xs != [] && Between(xs, lo, hi)
    ensures Inside(Run(alpha, xs), lo, hi)
  {
    hide Run, Weights, Dot, Spread, Sum;
    RunIsWeightedMoments(alpha, xs);
    WeightsNonNegative(alpha, |xs|);
    MeanAndVarianceBounds(Weights(alpha, |xs|), xs, lo, hi, Run(alpha, xs).mean);
  }

  lemma RunVarianceNonNegative(alpha: real, xs: seq<real>)
    requires 0.0 <= alpha <= 1.0 && xs != []
    ensures Run(alpha, xs).Baseline? && Run(alpha, xs).variance >= 0.0
  {
    hide Run;
    RunBounds(alpha, xs, MinOf(xs), MaxOf(xs));
  }

  // ---- Unit independence -----------------------------------------------------

  function Convert(a: real, b: real, x: real): real {
    a * x + b
  }

  /** The same series read in another unit. */
  function ConvertAll(a: real, b: real, xs: seq<real>): (ys: seq<real>)
    ensures |ys| == |xs| && forall i :: 0 <= i < |xs| ==> ys[i] == Convert(a, b, xs[i])
  {
    seq(|xs|, i requires 0 <= i < |xs| => Convert(a, b, xs[i]))
  }

  function ConvertBaseline(a: real, b: real, base: Baseline): Baseline {
    match base
    case Fresh => Fresh
    case Baseline(mean, variance, count) => Baseline(Convert(a, b, mean), Times(a * a, variance), count)
  }

  lemma FoldConverts(alpha: real, a: real, b: real, base: Baseline, x: real)
    ensures Fold(alpha, ConvertBaseline(a, b, base), Convert(a, b, x)) == ConvertBaseline(a, b, Fold(alpha, base, x))
  {
    assert Times(a * a, 0.0) == 0.0;
    hide Convert, NextMean, NextVariance, Times;
    if base.Baseline? {
      ConvertedDelta(a, b, base.mean, x);
      ConvertedMean(alpha, a, b, base.mean, x - base.mean);
      ConvertedVariance(alpha, a, base.variance, x - base.mean);
    }
  }

  lemma ConvertedDelta(a: real, b: real, m: real, x: real)
    ensures Convert(a, b, x) - Convert(a, b, m) == Times(a, x - m)
  {
  }

  lemma ConvertedMean(alpha: real, a: real, b: real, m: real, d: real)
    ensures NextMean(alpha, Convert(a, b, m), Times(a, d)) == Convert(a, b, NextMean(alpha, m, d))
  {
  }

  lemma ConvertedVariance(alpha: real, a: real, v: real, d: real)
    ensures NextVariance(alpha, Times(a * a, v), Times(a, d)) == Times(a * a, NextVariance(alpha, v, d))
  {
  }

  lemma {:induction false} RunConverts(alpha: real, a: real, b: real, xs: seq<real>)
    ensures Run(alpha, ConvertAll(a, b, xs)) == ConvertBaseline(a, b, Run(alpha, xs))
  {
    hide Fold, ConvertBaseline, Convert;
    if xs == [] {
      EmptyConverts(a, b);
    } else {
      var n := |xs| - 1;
      RunConverts(alpha, a, b, xs[..n]);
      assert ConvertAll(a, b, xs)[..n] == ConvertAll(a, b, xs[..n]);
      FoldConverts(alpha, a, b, Run(alpha, xs[..n]), xs[n]);
    }
  }

  lemma EmptyConverts(a: real, b: real)
    ensures ConvertBaseline(a, b, Fresh) == Fresh
  {
  }

  lemma SqrtScales(sqrt: real -> real, a: real, v: real)
    requires IsSqrt(sqrt) && a > 0.0 && v >= 0.0
    ensures sqrt(v) >= 0.0 && sqrt(Times(a * a, v)) == Times(a, sqrt(v))
  {
    var r := sqrt(v);
    ProductNonNegative(a * a, v);
    ProductNonNegative(a, r);
    assert (a * r) * (a * r) == a * a * (r * r);
    EqualSquares(sqrt(Times(a * a, v)), a * r);
  }

  lemma StandardizedScales(a: real, d: real, s: real)
    requires a > 0.0 && s >= 0.0
    ensures Standardized(Times(a, d), Times(a, s)) == Standardized(d, s)
  {
    if s > 0.0 {
      assert a * s > 0.0;
      var q := d / s;
      assert a * d == q * (a * s);
      Quotient(a * d, q, a * s);
    }
  }

  lemma ZScoreConverts(sqrt: real -> real, a: real, b: real, base: Baseline, x: real)
    requires IsSqrt(sqrt) && a > 0.0
    requires base.Baseline? ==> base.variance >= 0.0
    ensures ZScore(sqrt, ConvertBaseline(a, b, base), Convert(a, b, x)) == ZScore(sqrt, base, x)
  {
    hide Standardized, Convert, Times;
    if base.Baseline? {
      SqrtScales(sqrt, a, base.variance);
      ConvertedDelta(a, b, base.mean, x);
      StandardizedScales(a, x - base.mean, sqrt(base.variance));
    }
  }

  /** Changing the unit of a series changes none of its z-scores and counts. */
  lemma {:induction false} ReadingsConvert(alpha: real, sqrt: real -> real, a: real, b: real, xs: seq<real>)
    requires 0.0 <= alpha <= 1.0 && IsSqrt(sqrt) && a > 0.0
    ensures Readings(alpha, sqrt, ConvertAll(a, b, xs)) == Readings(alpha, sqrt, xs)
  {
    hide Run, Fold, ZScore, Convert;
    var n := |xs| - 1;
    if xs == [] {
    } else {
      var ys := ConvertAll(a, b, xs);
      ReadingsConvert(alpha, sqrt, a, b, xs[..n]);
      assert ys[..n] == ConvertAll(a, b, xs[..n]);
      var base, x := Run(alpha, xs[..n]), xs[n];
      RunConverts(alpha, a, b, xs[..n]);
      if n > 0 {
        RunVarianceNonNegative(alpha, xs[..n]);
      } else {
        EmptyRun(alpha, xs[..n]);
      }
      ZScoreConverts(sqrt, a, b, base, x);
      FoldConverts(alpha, a, b, base, x);
      CountConverts(a, b, Fold(alpha, base, x));
    }
  }

  lemma EmptyRun(alpha: real, xs: seq<real>)
    requires xs == []
    ensures Run(alpha, xs) == Fresh
  {
  }

  lemma CountConverts(a: real, b: real, base: Baseline)
    ensures SampleCount(ConvertBaseline(a, b, base)) == SampleCount(base)
  {
  }

  // ---- What the z-score is ---------------------------------------------------

  /** The last sample's z-score against the weighted moments of the samples before it: their deviation in units of the
      standard deviation, with its sign, and zero while there is no spread. The count is that of all samples. */
  lemma ZScoreIs(alpha: real, sqrt: real -> real, xs: seq<real>, x: real)
    requires IsSqrt(sqrt)
    ensures |Readings(alpha, sqrt, xs + [x])| == |xs| + 1
    ensures var (z, count) := Readings(alpha, sqrt, xs + [x])[|xs|];
            var m := Dot(Weights(alpha, |xs|), xs);
            var v := Spread(Weights(alpha, |xs|), xs, m);
            && count == |xs| + 1
            && (xs == [] || v == 0.0 ==> z == 0.0)
            && (xs != [] && v > 0.0 ==>
                 && Times(Square(z), v) == Square(x - m)
                 && (z > 0.0 <==> x > m) && (z < 0.0 <==> x < m))
  {
    hide Fold, Dot, Spread, Weights, Times, Square, Run, Standardized;
    var b := Run(alpha, xs);
    LastReading(alpha, sqrt, xs, x);
    if xs == [] {
      EmptyRun(alpha, xs);
    } else {
      RunIsWeightedMoments(alpha, xs);
      if b.variance >= 0.0 {
        StandardizedIs(sqrt, x - b.mean, b.variance);
      }
    }
  }

  lemma LastReading(alpha: real, sqrt: real -> real, xs: seq<real>, x: real)
    ensures |Readings(alpha, sqrt, xs + [x])| == |xs| + 1
    ensures Readings(alpha, sqrt, xs + [x])[|xs|] == (ZScore(sqrt, Run(alpha, xs), x), |xs| + 1)
  {
    hide ZScore;
    assert (xs + [x])[..|xs|] == xs;
    ReadingsLength(alpha, sqrt, xs);
    RunCounts(alpha, xs);
  }

  lemma FoldCounts(alpha: real, xs: seq<real>, x: real)
    ensures SampleCount(Fold(alpha, Run(alpha, xs), x)) == |xs| + 1
  {
    RunCounts(alpha, xs);
  }

  lemma {:induction false} ReadingsLength(alpha: real, sqrt: real -> real, xs: seq<real>)
    ensures |Readings(alpha, sqrt, xs)| == |xs|
  {
    hide ZScore, Fold, Run;
    if xs == [] {
    } else {
      ReadingsLength(alpha, sqrt, xs[..|xs|-1]);
    }
  }

  lemma {:induction false} RunCounts(alpha: real, xs: seq<real>)
    ensures SampleCount(Run(alpha, xs)) == |xs|
  {
    hide NextMean, NextVariance;
    if xs == [] {
    } else {
      RunCounts(alpha, xs[..|xs|-1]);
    }
  }

  lemma StandardizedIs(sqrt: real -> real, d: real, v: real)
    requires IsSqrt(sqrt) && v >= 0.0
    ensures var z := Standardized(d, sqrt(v));
            if v == 0.0 then z == 0.0
            else Times(Square(z), v) == Square(d) && (z > 0.0 <==> d > 0.0) && (z < 0.0 <==> d < 0.0)
  {
    var s := sqrt(v);
    if v == 0.0 {
      EqualSquares(s, 0.0);
    } else {
      assert s > 0.0;
      var z := d / s;
      assert z * s == d;
      SquareOfProduct(z, s);
      QuotientSign(d, s);
    }
  }

  lemma SquareOfProduct(z: real, s: real)
    ensures Times(Square(z), s * s) == Square(z * s)
  {
    var zz, zs := z * z, z * s;
    assert zz * (s * s) == z * (z * (s * s));
    assert z * (s * s) == zs * s;
    assert z * (zs * s) == zs * zs;
  }

  lemma QuotientSign(d: real, s: real)
    requires s > 0.0
    ensures (d / s > 0.0 <==> d > 0.0) && (d / s < 0.0 <==> d < 0.0)
  {
    assert d / s * s == d;
    if d >= 0.0 {
      QuotientOrder(0.0, d, s);
    } else {
      QuotientOrder(d, 0.0, s);
    }
  }

  // ---- Verdicts --------------------------------------------------------------

  datatype Severity = Warning | High | Critical

  datatype Verdict = Quiet | Flagged(severity: Severity, score: real)

  datatype CheckError = ZeroThreshold

  function Clamp01(v: real): real {
    if v < 0.0 then 0.0 else if v > 1.0 then 1.0 else v
  }

  function Abs(z: real): real {
    if z < 0.0 then -z else z
  }

  /** The z-score check. A zero threshold makes the source divide by zero. */
  function StatCheck(z: real, count: int, minSamples: int, threshold: real): Result<Verdict, CheckError> {
    if count < minSamples || Abs(z) < threshold then Ok(Quiet)
    else if threshold == 0.0 then Err(ZeroThreshold)
    else
      var severity :=
        if Abs(z) >= threshold * 1.6 then Critical
        else if Abs(z) >= threshold * 1.3 then High
        else Warning;
      Ok(Flagged(severity, Clamp01(Abs(z) / (threshold * 2.0))))
  }

  /** The check's outcomes along a whole series. */
  function Verdicts(alpha: real, sqrt: real -> real, minSamples: int, threshold: real, xs: seq<real>)
    : seq<Result<Verdict, CheckError>>
  {
    var rs := Readings(alpha, sqrt, xs);
    seq(|rs|, i requires 0 <= i < |rs| => StatCheck(rs[i].0, rs[i].1, minSamples, threshold))
  }

  /** No alarm, severity or score depends on the unit the sensor reports in. */
  lemma VerdictsUnitIndependent(alpha: real, sqrt: real -> real, minSamples: int, threshold: real,
                                a: real, b: real, xs: seq<real>)
    requires 0.0 <= alpha <= 1.0 && IsSqrt(sqrt) && a > 0.0
    ensures Verdicts(alpha, sqrt, minSamples, threshold, ConvertAll(a, b, xs))
         == Verdicts(alpha, sqrt, minSamples, threshold, xs)
  {
    ReadingsConvert(alpha, sqrt, a, b, xs);
  }

  function Rank(r: Result<Verdict, CheckError>): int {
    match r
    case Ok(Quiet) => 0
    case Ok(Flagged(Warning, _)) => 1
    case Ok(Flagged(High, _)) => 2
    case Ok(Flagged(Critical, _)) => 3
    case Err(_) => 4
  }

  /** Which verdict a deviation gets, told by the bands that the source documents: quiet below one threshold or before
      enough samples, then WARNING, HIGH from 1.3 thresholds on and CRITICAL from 1.6 on, with a score that is the
      deviation in units of two thresholds, capped at one. */
  lemma StatCheckBands(z: real, count: int, minSamples: int, threshold: real)
    requires threshold > 0.0
    ensures var r := StatCheck(z, count, minSamples, threshold);
            && r.Ok?
            && (r.value.Quiet? <==> count < minSamples || -threshold < z < threshold)
            && (r.value.Flagged? ==>
                 && (r.value.severity.Critical? <==> z >= 1.6 * threshold || -z >= 1.6 * threshold)
                 && (r.value.severity.Warning? <==> -1.3 * threshold < z < 1.3 * threshold)
                 && (r.value.score < 1.0 <==> -2.0 * threshold < z < 2.0 * threshold)
                 && (r.value.score < 1.0 ==> r.value.score * 2.0 * threshold == Abs(z))
                 && r.value.score <= 1.0)
  {
    var d := threshold * 2.0;
    if !(count < minSamples || Abs(z) < threshold) {
      var q := Abs(z) / d;
      assert q * d == Abs(z);
      QuotientOrder(0.0, Abs(z), d);
      CapAtOne(q, d, Abs(z));
    }
  }

  lemma CapAtOne(q: real, d: real, a: real)
    requires d > 0.0 && q * d == a
    ensures q < 1.0 <==> a < d
    ensures q > 1.0 <==> a > d
  {
    if q < 1.0 {
      ScaleGrows(q, 1.0, d);
    }
    if q > 1.0 {
      ScaleGrows(1.0, q, d);
    }
  }

  /** With a positive threshold a larger deviation is never judged milder, and once enough
      samples are in the check stays quiet exactly below the threshold. */
  lemma StatCheckMonotone(z1: real, z2: real, count: int, minSamples: int, threshold: real)
    requires threshold > 0.0 && Abs(z1) <= Abs(z2)
    ensures var r1, r2 := StatCheck(z1, count, minSamples, threshold), StatCheck(z2, count, minSamples, threshold);
            && r1.Ok? && r2.Ok? && Rank(r1) <= Rank(r2)
            && (r1.value.Flagged? ==> r2.value.Flagged? && 0.5 <= r1.value.score <= r2.value.score <= 1.0)
            && (r1.value.Quiet? <==> count < minSamples || Abs(z1) < threshold)
  {
    var d := threshold * 2.0;
    QuotientOrder(Abs(z1), Abs(z2), d);
    if Abs(z1) >= threshold {
      QuotientOrder(threshold, Abs(z1), d);
      assert threshold / d == 0.5;
    }
  }

}
