/** The real arithmetic the numeric models rest on, one small step a lemma. */
module RealArith {

  /** Products kept under a name, so that equal arguments give equal products. */
  function Times(a: real, b: real): real {
    a * b
  }

  function Square(a: real): real {
    a * a
  }

  lemma Distribute(c: real, a: real, b: real)
    ensures c * (a + b) == c * a + c * b
  {
  }

  lemma ProductNonNegative(p: real, q: real)
    requires p >= 0.0 && q >= 0.0
    ensures p * q >= 0.0
  {
  }

  lemma TimesZero(a: real, b: real)
    ensures Times(a, 0.0) == 0.0 && Times(b, 0.0) == 0.0
  {
  }

  lemma ScaleOrder(w: real, a: real, b: real)
    requires w >= 0.0 && a <= b
    ensures w * a <= w * b && a * w <= b * w
  {
  }

  lemma ProductBelowQuarterSquare(p: real, q: real)
    ensures p * q <= (p + q) * (p + q) / 4.0
  {
    assert 0.0 <= (p - q) * (p - q);
    assert (p + q) * (p + q) == (p - q) * (p - q) + 4.0 * (p * q);
  }

  lemma TimesAdds(w: real, a: real, b: real)
    ensures Times(w, a + b) == Times(w, a) + Times(w, b)
  {
  }

  lemma Complement(a: real, y: real)
    ensures Times(1.0 - a, y) == y - Times(a, y)
  {
  }

  lemma DoubleFactor(w: real, y: real)
    ensures Times(w, 2.0 * y) == 2.0 * Times(w, y)
  {
  }

  lemma SquareOfSum(p: real, q: real)
    ensures Square(p + q) == Square(p) + 2.0 * Times(p, q) + Square(q)
  {
  }

  lemma TimesOne(w: real)
    ensures Times(w, 1.0) == w
  {
  }

  /** A square root on the non-negative reals. Only this property of it is used. */
  ghost predicate IsSqrt(sqrt: real -> real) {
    forall v: real :: v >= 0.0 ==> sqrt(v) >= 0.0 && sqrt(v) * sqrt(v) == v
  }

  lemma EqualSquares(p: real, q: real)
    requires p >= 0.0 && q >= 0.0 && Square(p) == Square(q)
    ensures p == q
  {
    if p < q {
      SquareGrows(p, q);
    } else if q < p {
      SquareGrows(q, p);
    }
  }

  lemma SquareGrows(p: real, q: real)
    requires 0.0 <= p < q
    ensures Square(p) < Square(q)
  {
    hide Square, Times;
    TimesGrows(p, q);
    SquareIsTimes(p);
    SquareIsTimes(q);
  }

  lemma SquareIsTimes(p: real)
    ensures Square(p) == Times(p, p)
  {
  }

  lemma TimesGrows(p: real, q: real)
    requires 0.0 <= p < q
    ensures Times(p, p) <= Times(p, q) < Times(q, q)
  {
    hide Times;
    TimesGrowsRight(p, p, q);
    ScaleGrows(p, q, q);
  }

  lemma TimesGrowsRight(w: real, a: real, b: real)
    requires w >= 0.0 && a <= b
    ensures Times(w, a) <= Times(w, b)
  {
    ScaleOrder(w, a, b);
  }

  lemma ScaleGrows(p: real, q: real, s: real)
    requires p < q && s > 0.0
    ensures Times(p, s) < Times(q, s)
  {
    assert (q - p) * s > 0.0;
    assert (q - p) * s == q * s - p * s;
  }

  lemma Quotient(p: real, q: real, s: real)
    requires s > 0.0 && p == q * s
    ensures p / s == q
  {
    assert (p / s) * s == q * s;
    EqualFactors(p / s, q, s);
  }

  lemma EqualFactors(p: real, q: real, s: real)
    requires s > 0.0 && p * s == q * s
    ensures p == q
  {
    if p < q {
      ScaleGrows(p, q, s);
    } else if q < p {
      ScaleGrows(q, p, s);
    }
  }

  lemma QuotientOrder(p: real, q: real, d: real)
    requires p <= q && d > 0.0
    ensures p / d <= q / d
  {
    assert q / d - p / d == (q - p) / d;
  }
}
