/**
 * config.py `ci`: the normal-approximation confidence interval the plots
 * use as their error bars, mean -/+ 1.96 * std / sqrt(n), with numpy's
 * population standard deviation (ddof = 0).
 *
 * Dafny has no square root, so the two roots the formula takes, the
 * standard deviation and sqrt(n), are passed in together with the
 * equations that define them.
 */
module Config {
  import opened Frame

  /** The normal quantile the interval uses. */
  const Z: real := 1.96

  datatype Interval = Interval(lower: real, upper: real)

  /** `r` is the non-negative square root of `x`. */
  predicate IsRoot(r: real, x: real)
  {
    r >= 0.0 && r * r == x
  }

  /** Squared deviations from the mean. */
  function SquaredDeviations(a: seq<real>): (d: seq<real>)
    requires |a| > 0
    ensures |d| == |a|
    ensures forall i :: 0 <= i < |a| ==> d[i] >= 0.0
  {
    var m := Mean(a);
    assert forall i :: 0 <= i < |a| ==> (a[i] - m) * (a[i] - m) >= 0.0 by {
      forall i | 0 <= i < |a| {
        SquareNonNegative(a[i] - m);
      }
    }
    seq(|a|, i requires 0 <= i < |a| => (a[i] - m) * (a[i] - m))
  }

  /** numpy.var with ddof = 0: the mean squared deviation. */
  function Variance(a: seq<real>): (v: real)
    requires |a| > 0
    ensures v >= 0.0
  {
    MeanBounds(SquaredDeviations(a), 0.0, MaxOf(SquaredDeviations(a)));
    Mean(SquaredDeviations(a))
  }

  /** The half-width 1.96 * std / sqrt(n). */
  function HalfWidth(std: real, rootN: real): (s: real)
    requires std >= 0.0 && rootN > 0.0
    ensures s >= 0.0
  {
    Z * std / rootN
  }

  /**
   * `ci(a)`: (mean - s, mean + s). An empty sample gives NaN bounds (numpy's
   * mean of nothing), modelled as no interval.
   */
  function Ci(a: seq<real>, std: real, rootN: real): (r: Option<Interval>)
    requires |a| > 0 ==> IsRoot(std, Variance(a))
    requires IsRoot(rootN, |a| as real)
    ensures r.None? <==> |a| == 0
    ensures r.Some? ==> r.value.lower <= Mean(a) <= r.value.upper
    ensures r.Some? ==> Mean(a) - r.value.lower == r.value.upper - Mean(a)
    ensures r.Some? ==> (r.value.upper - Mean(a)) * (r.value.upper - Mean(a)) * (|a| as real) == Z * Z * Variance(a)
  {
    if |a| == 0 then None
    else
      var m := Mean(a);
      var s := HalfWidth(std, rootN);
      assert s * s * (|a| as real) == Z * Z * Variance(a) by {
        assert s * rootN == Z * std;
        assert s * s * (rootN * rootN) == Z * Z * (std * std);
      }
      Some(Interval(m - s, m + s))
  }

  // ---------------------------------------------------------------------

  lemma SquareNonNegative(x: real)
    ensures x * x >= 0.0
  {
  }

  lemma SquareZero(x: real)
    requires x >= 0.0 && x * x == 0.0
    ensures x == 0.0
  {
    if x > 0.0 {
      calc {
        0.0;
        == x * x;
        > 0.0 * x;
      }
    }
  }

  /** Square roots are monotone. */
  lemma RootMonotone(r1: real, x1: real, r2: real, x2: real)
    requires IsRoot(r1, x1) && IsRoot(r2, x2) && x1 <= x2
    ensures r1 <= r2
  {
    assert (r1 - r2) * (r1 + r2) == x1 - x2;
    if r1 + r2 > 0.0 {
      assert r1 - r2 == (x1 - x2) / (r1 + r2);
    }
  }

  /** A constant sample has zero variance. */
  lemma ConstantVariance(a: seq<real>)
    requires |a| > 0
    requires forall i :: 0 <= i < |a| ==> a[i] == a[0]
    ensures Variance(a) == 0.0
  {
    MeanConstant(a, a[0]);
    MeanConstant(SquaredDeviations(a), 0.0);
  }

  /** A single-element or constant sample gives lower = upper = mean. */
  lemma ConstantSampleZeroWidth(a: seq<real>, std: real, rootN: real)
    requires |a| > 0
    requires forall i :: 0 <= i < |a| ==> a[i] == a[0]
    requires IsRoot(std, Variance(a)) && IsRoot(rootN, |a| as real)
    ensures Ci(a, std, rootN) == Some(Interval(a[0], a[0]))
  {
    ConstantVariance(a);
    MeanConstant(a, a[0]);
    SquareZero(std);
  }

  /** For a fixed n the half-width grows with the standard deviation. */
  lemma HalfWidthGrowsWithStd(std1: real, std2: real, rootN: real)
    requires 0.0 <= std1 <= std2 && rootN > 0.0
    ensures HalfWidth(std1, rootN) <= HalfWidth(std2, rootN)
  {
    assert Z * std1 <= Z * std2;
  }

  /** For a fixed standard deviation the half-width shrinks as n grows. */
  lemma HalfWidthShrinksWithN(std: real, root1: real, n1: nat, root2: real, n2: nat)
    requires std >= 0.0 && 0 < n1 <= n2
    requires IsRoot(root1, n1 as real) && IsRoot(root2, n2 as real)
    ensures root1 > 0.0 && root2 > 0.0
    ensures HalfWidth(std, root2) <= HalfWidth(std, root1)
  {
    RootMonotone(root1, n1 as real, root2, n2 as real);
    assert root1 > 0.0;
    var k := Z * std;
    assert k >= 0.0;
    assert k / root2 <= k / root1 by {
      assert k * root1 <= k * root2;
    }
  }

  /** A sample with the larger variance has the wider interval, n fixed. */
  lemma WiderForLargerVariance(a: seq<real>, std1: real, b: seq<real>, std2: real, rootN: real)
    requires |a| > 0 && |a| == |b|
    requires IsRoot(std1, Variance(a)) && IsRoot(std2, Variance(b)) && IsRoot(rootN, |a| as real)
    requires Variance(a) <= Variance(b)
    ensures Ci(a, std1, rootN).value.upper - Ci(a, std1, rootN).value.lower
            <= Ci(b, std2, rootN).value.upper - Ci(b, std2, rootN).value.lower
  {
    RootMonotone(std1, Variance(a), std2, Variance(b));
    assert rootN > 0.0;
    HalfWidthGrowsWithStd(std1, std2, rootN);
  }
}
