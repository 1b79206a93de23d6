/** The numeric side of the analysis, over exact reals: sums and means
    (`np.mean`, `sum(...) / len(...)`), centred sums of squares and
    products, the population variance behind `np.std`, the least-squares
    slope `np.polyfit(x, y, 1)[0]`, and `min` / `max`. */
module Stats {

  /** `sum(xs)`, adding from the left as Python does. */
  function Sum(xs: seq<real>): real
    decreases |xs|
  {
    if |xs| == 0 then 0.0 else Sum(xs[..|xs| - 1]) + xs[|xs| - 1]
  }

  lemma {:induction false} SumAppend(xs: seq<real>, ys: seq<real>)
    ensures Sum(xs + ys) == Sum(xs) + Sum(ys)
    decreases |ys|
  {
    if |ys| > 0 {
      assert (xs + ys)[..|xs + ys| - 1] == xs + ys[..|ys| - 1];
      SumAppend(xs, ys[..|ys| - 1]);
    } else {
      assert xs + ys == xs;
    }
  }

  /** `np.mean(xs)`; the analysis only takes the mean of a non-empty
      series. */
  function Mean(xs: seq<real>): real
    requires |xs| > 0
  {
    Sum(xs) / (|xs| as real)
  }

  /** `xs[i] * ys[i]`, summed. */
  function Dot(xs: seq<real>, ys: seq<real>): real
    requires |xs| == |ys|
    decreases |xs|
  {
    if |xs| == 0 then 0.0
    else Dot(xs[..|xs| - 1], ys[..|ys| - 1]) + xs[|xs| - 1] * ys[|ys| - 1]
  }

  /** Each value less the series mean. */
  function Centered(xs: seq<real>): (ds: seq<real>)
    requires |xs| > 0
    ensures |ds| == |xs|
  {
    seq(|xs|, i requires 0 <= i < |xs| => xs[i] - Mean(xs))
  }

  function Sq(x: real): real
  {
    x * x
  }

  /** `ds[i] ** 2`, summed. */
  function SumSq(ds: seq<real>): real
    decreases |ds|
  {
    if |ds| == 0 then 0.0 else SumSq(ds[..|ds| - 1]) + Sq(ds[|ds| - 1])
  }

  /** The sum of squared deviations from the mean. */
  function Sxx(xs: seq<real>): real
    requires |xs| > 0
  {
    SumSq(Centered(xs))
  }

  /** The sum of products of the deviations of two paired series. */
  function Sxy(xs: seq<real>, ys: seq<real>): real
    requires |xs| == |ys| > 0
  {
    Dot(Centered(xs), Centered(ys))
  }

  /** `np.std(xs) ** 2`: the population variance (divisor n). */
  function Variance(xs: seq<real>): real
    requires |xs| > 0
  {
    Sxx(xs) / (|xs| as real)
  }

  predicate AllPositive(xs: seq<real>)
  {
    forall i :: 0 <= i < |xs| ==> xs[i] > 0.0
  }

  /** `np.polyfit(xs, ys, 1)[0]`. When the `xs` are not all equal this is
      the least-squares slope `Sxy / Sxx`. When they are all the same value
      `c`, the fit is rank deficient and `polyfit` (which scales both
      columns of its design matrix to unit length before taking the
      minimum-norm least-squares solution) gives `mean(ys) / (2c)`. The
      `xs` are date ordinals, which are positive. */
  function Slope(xs: seq<real>, ys: seq<real>): real
    requires |xs| == |ys| > 0 && AllPositive(xs)
  {
    if Sxx(xs) != 0.0 then Sxy(xs, ys) / Sxx(xs) else Mean(ys) / (2.0 * xs[0])
  }

  function Min(xs: seq<real>): (m: real)
    requires |xs| > 0
    ensures (exists i :: 0 <= i < |xs| && xs[i] == m)
    ensures forall i :: 0 <= i < |xs| ==> m <= xs[i]
    decreases |xs|
  {
    if |xs| == 1 then xs[0]
    else
      var rest := Min(xs[..|xs| - 1]);
      if xs[|xs| - 1] < rest then xs[|xs| - 1] else rest
  }

  function Max(xs: seq<real>): (m: real)
    requires |xs| > 0
    ensures (exists i :: 0 <= i < |xs| && xs[i] == m)
    ensures forall i :: 0 <= i < |xs| ==> xs[i] <= m
    decreases |xs|
  {
    if |xs| == 1 then xs[0]
    else
      var rest := Max(xs[..|xs| - 1]);
      if xs[|xs| - 1] > rest then xs[|xs| - 1] else rest
  }

  // ---------------------------------------------------------------------
  // Sums

  /** Summing an affine image of a series. */
  lemma {:induction false} SumAffine(xs: seq<real>, ys: seq<real>, a: real, b: real)
    requires |xs| == |ys|
    requires forall i :: 0 <= i < |xs| ==> ys[i] == a * xs[i] + b
    ensures Sum(ys) == a * Sum(xs) + b * (|xs| as real)
    decreases |xs|
  {
    if |xs| > 0 {
      var n := |xs| - 1;
      SumAffine(xs[..n], ys[..n], a, b);
      assert Sum(ys) == (a * Sum(xs[..n]) + b * (n as real)) + (a * xs[n] + b);
    }
  }

  /** Every value between two bounds puts the sum between n times each. */
  lemma {:induction false} SumBounds(xs: seq<real>, lo: real, hi: real)
    requires forall i :: 0 <= i < |xs| ==> lo <= xs[i] <= hi
    ensures lo * (|xs| as real) <= Sum(xs) <= hi * (|xs| as real)
    decreases |xs|
  {
    if |xs| > 0 {
      SumBounds(xs[..|xs| - 1], lo, hi);
    }
  }

  /** The mean of a series lies between its smallest and largest value. */
  lemma MeanWithinRange(xs: seq<real>)
    requires |xs| > 0
    ensures Min(xs) <= Mean(xs) <= Max(xs)
  {
    MeanBetween(xs, Min(xs), Max(xs));
  }

  lemma MeanBetween(xs: seq<real>, lo: real, hi: real)
    requires |xs| > 0
    requires forall i :: 0 <= i < |xs| ==> lo <= xs[i] <= hi
    ensures lo <= Mean(xs) <= hi
  {
    SumBounds(xs, lo, hi);
    assert Bracketed(lo, Sum(xs), hi, |xs| as real);
    DivBounds(Sum(xs), |xs| as real, lo, hi);
  }

  /** `s` lies between `lo * n` and `hi * n` for a positive `n`. */
  predicate Bracketed(lo: real, s: real, hi: real, n: real)
  {
    n > 0.0 && lo * n <= s <= hi * n
  }

  lemma DivBounds(s: real, n: real, lo: real, hi: real)
    requires Bracketed(lo, s, hi, n)
    ensures lo <= s / n <= hi
  {
    var q := s / n;
    assert q * n == s;
    assert (q - lo) * n >= 0.0;
    assert (hi - q) * n >= 0.0;
    FactorSign(q - lo, n);
    FactorSign(hi - q, n);
  }

  lemma FactorSign(a: real, n: real)
    requires n > 0.0 && a * n >= 0.0
    ensures a >= 0.0
  {
  }

  lemma CancelPositive(v: real, a: real, b: real)
    requires v > 0.0 && v * a > v * b
    ensures a > b
  {
  }

  /** The mean of an affine image is the affine image of the mean. */
  lemma MeanAffine(xs: seq<real>, ys: seq<real>, a: real, b: real)
    requires |xs| == |ys| > 0
    requires forall i :: 0 <= i < |xs| ==> ys[i] == a * xs[i] + b
    ensures Mean(ys) == a * Mean(xs) + b
  {
    SumAffine(xs, ys, a, b);
    AffineQuotient(Sum(xs), |xs| as real, a, b);
  }

  lemma AffineQuotient(s: real, n: real, a: real, b: real)
    requires n > 0.0
    ensures (a * s + b * n) / n == a * (s / n) + b
  {
  }

  lemma QuotientOfMultiple(s: real, x: real, a: real)
    requires x != 0.0 && s == a * x
    ensures s / x == a
  {
  }

  /** A constant series has that constant as its mean. */
  lemma MeanOfConstant(xs: seq<real>, c: real)
    requires |xs| > 0
    requires forall i :: 0 <= i < |xs| ==> xs[i] == c
    ensures Mean(xs) == c
  {
    MeanAffine(xs, xs, 0.0, c);
  }

  /** Deviations from the mean cancel out. */
  lemma CenteredSumsToZero(xs: seq<real>)
    requires |xs| > 0
    ensures Sum(Centered(xs)) == 0.0
  {
    var ds := Centered(xs);
    SumAffine(xs, ds, 1.0, -Mean(xs));
    var n := |xs| as real;
    assert Sum(xs) == Mean(xs) * n;
  }

  // ---------------------------------------------------------------------
  // Products

  lemma {:induction false} DotAffine(ds: seq<real>, xs: seq<real>, ys: seq<real>, a: real, b: real)
    requires |ds| == |xs| == |ys|
    requires forall i :: 0 <= i < |xs| ==> ys[i] == a * xs[i] + b
    ensures Dot(ds, ys) == a * Dot(ds, xs) + b * Sum(ds)
    decreases |ds|
  {
    if |ds| > 0 {
      var n := |ds| - 1;
      DotAffine(ds[..n], xs[..n], ys[..n], a, b);
      assert ds[n] * ys[n] == a * (ds[n] * xs[n]) + b * ds[n];
    }
  }

  lemma {:induction false} DotSelf(ds: seq<real>)
    ensures Dot(ds, ds) == SumSq(ds)
    decreases |ds|
  {
    if |ds| > 0 {
      DotSelf(ds[..|ds| - 1]);
    }
  }

  lemma SquareSign(x: real)
    ensures Sq(x) >= 0.0
    ensures Sq(x) == 0.0 ==> x == 0.0
  {
    if x != 0.0 {
      assert x * (1.0 / x) == 1.0;
      assert Sq(x) * (1.0 / x) * (1.0 / x) == 1.0;
    }
  }

  /** A sum of squares is never negative, and vanishes exactly when every
      term is zero. */
  lemma {:induction false} SumSqNonNegative(ds: seq<real>)
    ensures SumSq(ds) >= 0.0
    ensures SumSq(ds) == 0.0 <==> forall i :: 0 <= i < |ds| ==> ds[i] == 0.0
    decreases |ds|
  {
    if |ds| > 0 {
      var n := |ds| - 1;
      var p := ds[..n];
      SumSqNonNegative(p);
      assert SumSq(ds) == SumSq(p) + Sq(ds[n]);
      SquareSign(ds[n]);
      if SumSq(ds) == 0.0 {
        assert SumSq(p) == 0.0 && Sq(ds[n]) == 0.0;
        forall i | 0 <= i < |ds| ensures ds[i] == 0.0 {
          if i < n {
            assert ds[i] == p[i];
          }
        }
      }
      if forall i :: 0 <= i < |ds| ==> ds[i] == 0.0 {
        assert forall i :: 0 <= i < n ==> p[i] == 0.0;
        assert Sq(ds[n]) == 0.0;
      }
    }
  }

  /** The variance is never negative. */
  lemma VarianceNonNegative(xs: seq<real>)
    requires |xs| > 0
    ensures Sxx(xs) >= 0.0 && Variance(xs) >= 0.0
  {
    SumSqNonNegative(Centered(xs));
  }

  predicate AllEqual(xs: seq<real>)
  {
    forall i :: 0 <= i < |xs| ==> xs[i] == xs[0]
  }

  /** The sum of squared deviations vanishes exactly for a constant
      series. */
  lemma SxxZeroIffConstant(xs: seq<real>)
    requires |xs| > 0
    ensures Sxx(xs) == 0.0 <==> AllEqual(xs)
  {
    var ds := Centered(xs);
    SumSqNonNegative(ds);
    if AllEqual(xs) {
      MeanOfConstant(xs, xs[0]);
      assert forall i :: 0 <= i < |ds| ==> ds[i] == 0.0;
    }
    if Sxx(xs) == 0.0 {
      assert forall i :: 0 <= i < |xs| ==> xs[i] == Mean(xs) by {
        forall i | 0 <= i < |xs| ensures xs[i] == Mean(xs) {
          assert ds[i] == 0.0;
        }
      }
    }
  }

  /** A constant series has no spread, and no covariance with any other
      series. */
  lemma ConstantSeries(xs: seq<real>, ys: seq<real>)
    requires |xs| == |ys| > 0 && AllEqual(ys)
    ensures Variance(ys) == 0.0
    ensures Sxy(xs, ys) == 0.0
  {
    SxxZeroIffConstant(ys);
    MeanOfConstant(ys, ys[0]);
    var cy := Centered(ys);
    assert forall i :: 0 <= i < |cy| ==> cy[i] == 0.0 * ys[i] + 0.0;
    DotAffine(Centered(xs), ys, cy, 0.0, 0.0);
  }

  // ---------------------------------------------------------------------
  // The slope

  /** Points on a line `y = a x + b` (with dates not all equal) give back the
      line's slope. */
  lemma SlopeOfLine(xs: seq<real>, ys: seq<real>, a: real, b: real)
    requires |xs| == |ys| > 0 && AllPositive(xs) && !AllEqual(xs)
    requires forall i :: 0 <= i < |xs| ==> ys[i] == a * xs[i] + b
    ensures Slope(xs, ys) == a
  {
    SxxZeroIffConstant(xs);
    MeanAffine(xs, ys, a, b);
    var cx := Centered(xs);
    var cy := Centered(ys);
    assert forall i :: 0 <= i < |cx| ==> cy[i] == a * cx[i] + 0.0;
    DotAffine(cx, cx, cy, a, 0.0);
    DotSelf(cx);
    QuotientOfMultiple(Sxy(xs, ys), Sxx(xs), a);
  }

  /** A constant series (dates not all equal) has slope zero. */
  lemma SlopeOfConstant(xs: seq<real>, ys: seq<real>)
    requires |xs| == |ys| > 0 && AllPositive(xs) && !AllEqual(xs) && AllEqual(ys)
    ensures Slope(xs, ys) == 0.0
  {
    SxxZeroIffConstant(xs);
    ConstantSeries(xs, ys);
  }

  /** All readings on one date: the slope is half the mean value over the
      date's ordinal, so it takes the sign of the mean. */
  lemma SlopeOfOneDate(xs: seq<real>, ys: seq<real>)
    requires |xs| == |ys| > 0 && AllPositive(xs) && AllEqual(xs)
    ensures Slope(xs, ys) == Mean(ys) / (2.0 * xs[0])
    ensures Slope(xs, ys) > 0.0 <==> Mean(ys) > 0.0
    ensures Slope(xs, ys) < 0.0 <==> Mean(ys) < 0.0
  {
    SxxZeroIffConstant(xs);
    assert xs[0] > 0.0;
  }

  // ---------------------------------------------------------------------
  // Outliers

  /** `(x - m)^2 > t`: the test `|x - m| > 2 * std` with `t = 4 * var`. */
  predicate FarFrom(x: real, m: real, t: real)
  {
    Sq(x - m) > t
  }

  /** How many values of `ds` have a square above `t`. */
  function CountAbove(ds: seq<real>, t: real): (k: nat)
    ensures k <= |ds|
    decreases |ds|
  {
    if |ds| == 0 then 0
    else CountAbove(ds[..|ds| - 1], t) + (if Sq(ds[|ds| - 1]) > t then 1 else 0)
  }

  /** Each value whose square exceeds `t >= 0` adds more than `t` to the
      sum of squares. */
  lemma {:induction false} SquaresAboveBound(ds: seq<real>, t: real)
    requires t >= 0.0
    ensures SumSq(ds) >= t * (CountAbove(ds, t) as real)
    ensures CountAbove(ds, t) > 0 ==> SumSq(ds) > t * (CountAbove(ds, t) as real)
    decreases |ds|
  {
    if |ds| > 0 {
      var n := |ds| - 1;
      SquaresAboveBound(ds[..n], t);
      SumSqNonNegative(ds[..n]);
      SquareSign(ds[n]);
    }
  }

  /** Chebyshev's bound for two standard deviations: fewer than a quarter of
      the values of a series lie more than two standard deviations from the
      mean. */
  lemma FewOutliers(xs: seq<real>)
    requires |xs| > 0
    ensures 4 * CountAbove(Centered(xs), 4.0 * Variance(xs)) < |xs|
  {
    var ds := Centered(xs);
    var n := |xs| as real;
    VarianceNonNegative(xs);
    var t := 4.0 * Variance(xs);
    SquaresAboveBound(ds, t);
    var k := CountAbove(ds, t) as real;
    if k > 0.0 {
      assert CountAbove(ds, t) > 0;
      QuarterBound(Sxx(xs), n, k);
    }
  }

  /** A positive total `s` exceeding `k` times four times its own mean over
      `n` items forces `n > 4 k`. */
  lemma QuarterBound(s: real, n: real, k: real)
    requires n > 0.0 && k > 0.0 && s >= 0.0
    requires s > 4.0 * (s / n) * k
    ensures n > 4.0 * k
  {
    var v := s / n;
    assert s == v * n;
    assert v * n > v * (4.0 * k);
    assert v >= 0.0;
    assert v > 0.0;
    CancelPositive(v, n, 4.0 * k);
  }

}
