/**
 * Shared vocabulary of the analysis scripts: a missing value (pandas NaN),
 * sums and arithmetic means over real samples, NaN-propagating subtraction,
 * the element-wise minimum and maximum, an evenly spaced axis
 * (numpy.linspace) and the two-column wide-to-long reshape (DataFrame.melt).
 *
 * Floating-point values are modelled by `real`: every operation the scripts
 * apply to them outside plotting is +, -, *, /, min, max or mean.
 */
module Frame {

  /** A cell of a data frame: `None` stands for NaN. */
  datatype Option<+T> = None | Some(value: T)

  /** The outcome of a step that can raise: a value, or the exception raised. */
  datatype Result<+T, +E> = Ok(value: T) | Err(error: E)

  /** Sum of a sample, first element first. */
  function Sum(s: seq<real>): real
  {
    if |s| == 0 then 0.0 else s[0] + Sum(s[1..])
  }

  /** Arithmetic mean of a non-empty sample (numpy.mean, pandas mean). */
  function Mean(s: seq<real>): real
    requires |s| > 0
  {
    Sum(s) / |s| as real
  }

  /** The mean times the count is the sum. */
  lemma MeanTimesCount(s: seq<real>)
    requires |s| > 0
    ensures Mean(s) * (|s| as real) == Sum(s)
  {
  }

  /** A positive sum has a positive mean. */
  lemma MeanPositive(s: seq<real>)
    requires |s| > 0 && Sum(s) > 0.0
    ensures Mean(s) > 0.0 && Mean(s) * (|s| as real) == Sum(s)
  {
  }

  lemma {:induction false} SumAppend(a: seq<real>, b: seq<real>)
    ensures Sum(a + b) == Sum(a) + Sum(b)
  {
    if |a| == 0 {
      assert a + b == b;
    } else {
      assert (a + b)[1..] == a[1..] + b;
      SumAppend(a[1..], b);
    }
  }

  /** The sum of a sample whose every element is `c`. */
  lemma {:induction false} SumConstant(s: seq<real>, c: real)
    requires forall i :: 0 <= i < |s| ==> s[i] == c
    ensures Sum(s) == |s| as real * c
  {
    if |s| > 0 {
      SumConstant(s[1..], c);
    }
  }

  /** A sample whose every element is `c` has mean `c`. */
  lemma MeanConstant(s: seq<real>, c: real)
    requires |s| > 0
    requires forall i :: 0 <= i < |s| ==> s[i] == c
    ensures Mean(s) == c
  {
    SumConstant(s, c);
  }

  /** The mean of one value is that value. */
  lemma MeanSingleton(x: real)
    ensures Mean([x]) == x
  {
    assert [x][1..] == [];
    assert Sum([x]) == x + Sum([]);
  }

  /** Scaling every element scales the sum. */
  lemma {:induction false} SumScale(s: seq<real>, t: seq<real>, k: real)
    requires |t| == |s|
    requires forall i :: 0 <= i < |s| ==> t[i] == s[i] * k
    ensures Sum(t) == Sum(s) * k
  {
    if |s| > 0 {
      SumScale(s[1..], t[1..], k);
    }
  }

  /** The sum lies between |s| times the least and |s| times the greatest bound. */
  lemma {:induction false} SumBounds(s: seq<real>, lo: real, hi: real)
    requires forall i :: 0 <= i < |s| ==> lo <= s[i] <= hi
    ensures |s| as real * lo <= Sum(s) <= |s| as real * hi
  {
    if |s| > 0 {
      SumBounds(s[1..], lo, hi);
    }
  }

  /** A mean lies between any lower and upper bound of the sample. */
  lemma MeanBounds(s: seq<real>, lo: real, hi: real)
    requires |s| > 0
    requires forall i :: 0 <= i < |s| ==> lo <= s[i] <= hi
    ensures lo <= Mean(s) <= hi
  {
    SumBounds(s, lo, hi);
    var n := |s| as real;
    assert Sum(s) / n >= lo by {
      assert Sum(s) >= n * lo;
    }
    assert Sum(s) / n <= hi by {
      assert Sum(s) <= n * hi;
    }
  }

  /** Subtraction of two frame columns: NaN on either side gives NaN. */
  function Sub(a: Option<real>, b: Option<real>): (r: Option<real>)
    ensures r.None? <==> a.None? || b.None?
    ensures r.Some? ==> r.value + b.value == a.value
  {
    if a.Some? && b.Some? then Some(a.value - b.value) else None
  }

  /** Swapping the operands of a difference negates it (NaN stays NaN). */
  lemma SubAntisymmetric(a: Option<real>, b: Option<real>)
    ensures Sub(a, b).None? <==> Sub(b, a).None?
    ensures Sub(a, b).Some? ==> Sub(a, b).value == -Sub(b, a).value
  {
  }

  /** The absolute value of a number. */
  function Abs(x: real): (r: real)
    ensures r >= 0.0 && (r == x || r == -x)
    ensures x >= 0.0 ==> r == x
  {
    if x < 0.0 then -x else x
  }

  /** numpy.abs / pandas abs on a possibly missing value. */
  function AbsOpt(a: Option<real>): (r: Option<real>)
    ensures r.None? <==> a.None?
    ensures r.Some? ==> r.value >= 0.0 && (r.value == a.value || r.value == -a.value)
    ensures r.Some? && a.value >= 0.0 ==> r.value == a.value
  {
    match a
    case None => None
    case Some(x) => Some(Abs(x))
  }

  /** The least element of a non-empty sample. */
  function MinOf(s: seq<real>): (r: real)
    requires |s| > 0
    ensures exists i :: 0 <= i < |s| && s[i] == r
    ensures forall i :: 0 <= i < |s| ==> r <= s[i]
  {
    if |s| == 1 then s[0]
    else
      var m := MinOf(s[1..]);
      assert forall i :: 1 <= i < |s| ==> s[i] == s[1..][i - 1];
      if s[0] <= m then s[0] else m
  }

  /** The greatest element of a non-empty sample. */
  function MaxOf(s: seq<real>): (r: real)
    requires |s| > 0
    ensures exists i :: 0 <= i < |s| && s[i] == r
    ensures forall i :: 0 <= i < |s| ==> s[i] <= r
  {
    if |s| == 1 then s[0]
    else
      var m := MaxOf(s[1..]);
      assert forall i :: 1 <= i < |s| ==> s[i] == s[1..][i - 1];
      if s[0] >= m then s[0] else m
  }

  /**
   * numpy.linspace(start, stop, num) with its default endpoint=True: `num`
   * evenly spaced values whose first is `start` and, when there are at
   * least two, whose last is exactly `stop`.
   */
  function Linspace(start: real, stop: real, num: nat): (r: seq<real>)
    ensures |r| == num
    ensures num >= 1 ==> r[0] == start
    ensures num >= 2 ==> r[num - 1] == stop
    ensures num >= 2 ==> forall k :: 0 <= k < num - 1 ==>
      r[k + 1] - r[k] == (stop - start) / (num - 1) as real
  {
    if num <= 1 then seq(num, k => start)
    else
      var step := (stop - start) / (num - 1) as real;
      var r := seq(num, k => start + k as real * step);
      assert r[num - 1] == stop by {
        assert (num - 1) as real * step == stop - start;
      }
      r
  }

  /** One row of a melted frame: the identifier columns, the variable name and the value. */
  datatype Melted<I, V> = Melted(id: I, variable: string, value: V)

  /** The rows one value column contributes to a melt, in input order. */
  function MeltColumn<I, V>(ids: seq<I>, values: seq<V>, name: string): (r: seq<Melted<I, V>>)
    requires |values| == |ids|
    ensures |r| == |ids|
    ensures forall i :: 0 <= i < |ids| ==> r[i].id == ids[i] && r[i].variable == name && r[i].value == values[i]
  {
    if |ids| == 0 then []
    else [Melted(ids[0], name, values[0])] + MeltColumn(ids[1..], values[1..], name)
  }

  /**
   * DataFrame.melt with two value columns: all rows for the first column in
   * input order, then all rows for the second, identifiers copied.
   */
  function Melt2<I, V>(ids: seq<I>, first: seq<V>, second: seq<V>, name1: string, name2: string): (r: seq<Melted<I, V>>)
    requires |first| == |ids| && |second| == |ids|
    ensures |r| == 2 * |ids|
    ensures forall i :: 0 <= i < |ids| ==>
      r[i] == Melted(ids[i], name1, first[i]) && r[|ids| + i] == Melted(ids[i], name2, second[i])
  {
    MeltColumn(ids, first, name1) + MeltColumn(ids, second, name2)
  }

  // Sequence prefixes, for loops that walk nested listings

  /** Taking one more element of `b` after `a`. */
  lemma AppendSlice<T>(a: seq<T>, b: seq<T>, i: nat)
    requires i < |b|
    ensures a + b[..i + 1] == (a + b[..i]) + [b[i]]
  {
    assert b[..i + 1] == b[..i] + [b[i]];
  }

  /** A common front keeps the prefix relation. */
  lemma PrefixExtend<T>(x: seq<T>, a: seq<T>, b: seq<T>)
    requires a <= b
    ensures x + a <= x + b
  {
    assert (x + b)[..|x + a|] == x + a;
  }

  /** The prefix relation is transitive. */
  lemma PrefixTransitive<T>(a: seq<T>, b: seq<T>, c: seq<T>)
    requires a <= b && b <= c
    ensures a <= c
  {
    assert c[..|a|] == b[..|a|];
  }

  lemma AppendAssociative<T>(a: seq<T>, b: seq<T>, c: seq<T>)
    ensures a + (b + c) == (a + b) + c
  {
  }
}
