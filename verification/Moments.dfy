/**
 Weighted first and second moments of a sequence of real samples.

 Both numeric loops of the system are instances: a window average weights its
 samples equally, an exponentially weighted average weights them geometrically.
 */
module Moments {
  import opened RealArith

  /** Sum of ws[i] * xs[i]. */
  function Dot(ws: seq<real>, xs: seq<real>): real
    requires |ws| == |xs|
  {
    var n := |xs|;
    if n == 0 then 0.0 else Dot(ws[..n-1], xs[..n-1]) + Times(ws[n-1], xs[n-1])
  }

  /** Sum of ws[i] * (xs[i] - c)^2. */
  function Spread(ws: seq<real>, xs: seq<real>, c: real): real
    requires |ws| == |xs|
  {
    var n := |xs|;
    if n == 0 then 0.0
    else Spread(ws[..n-1], xs[..n-1], c) + Times(ws[n-1], Square(xs[n-1] - c))
  }

  function Sum(xs: seq<real>): real {
    var n := |xs|;
    if n == 0 then 0.0 else Sum(xs[..n-1]) + xs[n-1]
  }

  lemma MomentsAppend(ws: seq<real>, xs: seq<real>, w: real, x: real)
    requires |ws| == |xs|
    ensures Dot(ws + [w], xs + [x]) == Dot(ws, xs) + Times(w, x)
    ensures Spread(ws + [w], xs + [x], 0.0) == Spread(ws, xs, 0.0) + Times(w, Square(x - 0.0))
    ensures Sum(ws + [w]) == Sum(ws) + w
  {
    hide Times, Square;
    assert (ws + [w])[..|ws|] == ws && (xs + [x])[..|xs|] == xs;
  }

  function MinOf(xs: seq<real>): (m: real)
    requires xs != []
    ensures m in xs && forall i :: 0 <= i < |xs| ==> m <= xs[i]
  {
    var n := |xs|;
    if n == 1 then xs[0]
    else
      var rest := MinOf(xs[..n-1]);
      assert xs == xs[..n-1] + [xs[n-1]];
      if xs[n-1] < rest then xs[n-1] else rest
  }

  function MaxOf(xs: seq<real>): (m: real)
    requires xs != []
    ensures m in xs && forall i :: 0 <= i < |xs| ==> xs[i] <= m
  {
    var n := |xs|;
    if n == 1 then xs[0]
    else
      var rest := MaxOf(xs[..n-1]);
      assert xs == xs[..n-1] + [xs[n-1]];
      if xs[n-1] > rest then xs[n-1] else rest
  }

  ghost predicate NonNegative(ws: seq<real>) {
    forall i :: 0 <= i < |ws| ==> ws[i] >= 0.0
  }

  ghost predicate Between(xs: seq<real>, lo: real, hi: real) {
    forall i :: 0 <= i < |xs| ==> lo <= xs[i] <= hi
  }

  ghost function Expanded(sq: real, d: real, t: real, c: real): real {
    sq - 2.0 * c * d + c * c * t
  }

  lemma {:induction false} SpreadExpands(ws: seq<real>, xs: seq<real>, c: real)
    requires |ws| == |xs|
    ensures Spread(ws, xs, c) == Expanded(Spread(ws, xs, 0.0), Dot(ws, xs), Sum(ws), c)
  {
    var n := |xs|;
    if n == 0 {
    } else {
      hide Expanded, Times, Square;
      var ws', xs' := ws[..n-1], xs[..n-1];
      SpreadExpands(ws', xs', c);
      ExpandStep(Spread(ws', xs', c), Spread(ws', xs', 0.0), Dot(ws', xs'), Sum(ws'), ws[n-1], xs[n-1], c,
                 Spread(ws, xs, c), Spread(ws, xs, 0.0), Dot(ws, xs), Sum(ws));
    }
  }

  lemma ExpandStep(sp: real, sq: real, d: real, t: real, w: real, x: real, c: real,
                   sp': real, sq': real, d': real, t': real)
    requires sp == Expanded(sq, d, t, c)
    requires sp' == sp + Times(w, Square(x - c)) && sq' == sq + Times(w, Square(x - 0.0))
    requires d' == d + Times(w, x) && t' == t + w
    ensures sp' == Expanded(sq', d', t', c)
  {
    ExpandAlgebra(sq, d, t, w, x, c);
  }

  lemma ExpandAlgebra(sq: real, d: real, t: real, w: real, x: real, c: real)
    ensures sq - 2.0 * c * d + c * c * t + w * ((x - c) * (x - c))
         == (sq + w * (x * x)) - 2.0 * c * (d + w * x) + c * c * (t + w)
  {
  }

  lemma {:induction false} DotBounds(ws: seq<real>, xs: seq<real>, lo: real, hi: real)
    requires |ws| == |xs| && NonNegative(ws) && Between(xs, lo, hi)
    ensures Times(lo, Sum(ws)) <= Dot(ws, xs) <= Times(hi, Sum(ws))
  {
    hide Times;
    var n := |xs|;
    if n == 0 {
      TimesZero(lo, hi);
    } else {
      DotBounds(ws[..n-1], xs[..n-1], lo, hi);
      DotBoundsStep(Sum(ws[..n-1]), ws[n-1], xs[n-1], lo, hi);
    }
  }

  lemma DotBoundsStep(t: real, w: real, x: real, lo: real, hi: real)
    requires w >= 0.0 && lo <= x <= hi
    ensures Times(lo, t + w) <= Times(lo, t) + Times(w, x)
    ensures Times(hi, t) + Times(w, x) <= Times(hi, t + w)
  {
    ScaleOrder(w, lo, x);
    ScaleOrder(w, x, hi);
    Distribute(lo, t, w);
    Distribute(hi, t, w);
  }

  /** The largest second moment that d and t allow for samples within [lo, hi]. */
  ghost function Chord(lo: real, hi: real, d: real, t: real): real {
    (lo + hi) * d - lo * hi * t
  }

  /** Every sample lies between lo and hi, so (hi - x)(x - lo) >= 0 under any weighting. */
  lemma {:induction false} SecondMomentBound(ws: seq<real>, xs: seq<real>, lo: real, hi: real)
    requires |ws| == |xs| && NonNegative(ws) && Between(xs, lo, hi)
    ensures 0.0 <= Spread(ws, xs, 0.0) <= Chord(lo, hi, Dot(ws, xs), Sum(ws))
  {
    var n := |xs|;
    if n == 0 {
    } else {
      var ws', xs' := ws[..n-1], xs[..n-1];
      SecondMomentBound(ws', xs', lo, hi);
      SecondMomentStep(Spread(ws', xs', 0.0), Dot(ws', xs'), Sum(ws'), ws[n-1], xs[n-1], lo, hi,
                       Spread(ws, xs, 0.0), Dot(ws, xs), Sum(ws));
    }
  }

  lemma SecondMomentStep(sq: real, d: real, t: real, w: real, x: real, lo: real, hi: real,
                         sq': real, d': real, t': real)
    requires 0.0 <= sq <= Chord(lo, hi, d, t)
    requires w >= 0.0 && lo <= x <= hi
    requires sq' == sq + Times(w, Square(x - 0.0)) && d' == d + Times(w, x) && t' == t + w
    ensures 0.0 <= sq' <= Chord(lo, hi, d', t')
  {
    ProductNonNegative(hi - x, x - lo);
    assert (hi - x) * (x - lo) == (lo + hi) * x - lo * hi - x * x;
    ScaleOrder(w, 0.0, x * x);
    ScaleOrder(w, x * x, (lo + hi) * x - lo * hi);
    assert w * ((lo + hi) * x - lo * hi) == (lo + hi) * (w * x) - lo * hi * w;
    Distribute(lo + hi, d, w * x);
    Distribute(lo * hi, t, w);
  }

  lemma {:induction false} SpreadNonNegative(ws: seq<real>, xs: seq<real>, c: real)
    requires |ws| == |xs| && NonNegative(ws)
    ensures 0.0 <= Spread(ws, xs, c)
  {
    var n := |xs|;
    if n == 0 {
    } else {
      SpreadNonNegative(ws[..n-1], xs[..n-1], c);
      ProductNonNegative(ws[n-1], Square(xs[n-1] - c));
    }
  }

  /** Bounds on the weighted mean m and the variance about it, for weights that sum to one. */
  lemma MeanAndVarianceBounds(ws: seq<real>, xs: seq<real>, lo: real, hi: real, m: real)
    requires |ws| == |xs| && NonNegative(ws) && Sum(ws) == 1.0 && Between(xs, lo, hi)
    requires m == Dot(ws, xs)
    ensures lo <= m <= hi
    ensures 0.0 <= Spread(ws, xs, m) <= (hi - m) * (m - lo) <= (hi - lo) * (hi - lo) / 4.0
  {
    DotBounds(ws, xs, lo, hi);
    SecondMomentBound(ws, xs, lo, hi);
    CentralMoment(ws, xs, m);
    SpreadNonNegative(ws, xs, m);
    Factor(Spread(ws, xs, m), Spread(ws, xs, 0.0), m, lo, hi);
  }

  /** The variance about the mean is the second moment less the squared mean. */
  lemma CentralMoment(ws: seq<real>, xs: seq<real>, m: real)
    requires |ws| == |xs| && Sum(ws) == 1.0 && m == Dot(ws, xs)
    ensures Spread(ws, xs, m) == Spread(ws, xs, 0.0) - Square(m)
  {
    hide Spread, Dot, Sum, Expanded, Square;
    SpreadExpands(ws, xs, m);
    ExpandedAtMean(Spread(ws, xs, 0.0), m);
  }

  lemma ExpandedAtMean(sq: real, m: real)
    ensures Expanded(sq, m, 1.0, m) == sq - Square(m)
  {
  }

  lemma Factor(sp: real, sq: real, m: real, lo: real, hi: real)
    requires sp == sq - Square(m)
    requires sq <= Chord(lo, hi, m, 1.0)
    ensures sp <= (hi - m) * (m - lo) <= (hi - lo) * (hi - lo) / 4.0
  {
    assert (hi - m) * (m - lo) == (lo + hi) * m - lo * hi - m * m;
    ProductBelowQuarterSquare(hi - m, m - lo);
    assert hi - m + (m - lo) == hi - lo;
  }

}
