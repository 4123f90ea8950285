/**
  NaiveInteger of include/bwsl/accumulators/NaiveIntegerAccumulator.hpp:
  an accumulator of `long` measurements keeping their count, their sum and
  the sum of their squares.

  The class carries the measurements added since the last reset as a ghost
  list, so its contracts can say what the three fields add up. The
  variance numerator of the source, sum2 - sum * sum, drops the factor
  count on sum2: it is negative already for the measurements 1 and 1.
  VarianceAsWritten models it; Variance uses count * sum2 - sum * sum,
  which is never negative.
*/
module NaiveIntegerAccumulator {
  import opened Wrappers
  import MathUtils

  /** The sum of the measurements. */
  function Total(xs: seq<int>): int
  {
    if xs == [] then 0 else Total(xs[..|xs| - 1]) + xs[|xs| - 1]
  }

  /** The sum of their squares. */
  function SumSquares(xs: seq<int>): int
  {
    if xs == [] then 0 else SumSquares(xs[..|xs| - 1]) + xs[|xs| - 1] * xs[|xs| - 1]
  }

  /** The sum of the squared distances of the measurements from x. */
  function Deviations(xs: seq<int>, x: int): (r: int)
    ensures r >= 0
  {
    if xs == [] then 0
    else
      var d := xs[|xs| - 1] - x;
      Square(d);
      Deviations(xs[..|xs| - 1], x) + d * d
  }

  lemma Square(d: int)
    ensures d * d >= 0
  {
    if d >= 0 {
      MathUtils.MulNonneg(d, d);
    } else {
      MathUtils.MulNonneg(-d, -d);
    }
  }

  /** Expanding the squared distances from x in terms of the count, the sum
      and the sum of squares. */
  lemma {:induction false} DeviationsExpanded(xs: seq<int>, x: int)
    ensures Deviations(xs, x) == SumSquares(xs) - 2 * x * Total(xs) + |xs| * (x * x)
  {
    if xs != [] {
      var ys, y := xs[..|xs| - 1], xs[|xs| - 1];
      DeviationsExpanded(ys, x);
      ExpandStep(SumSquares(ys), Total(ys), |ys|, x, y);
    }
  }

  lemma ExpandStep(q: int, s: int, m: int, x: int, y: int)
    ensures (q - 2 * x * s + m * (x * x)) + (y - x) * (y - x)
         == (q + y * y) - 2 * x * (s + y) + (m + 1) * (x * x)
  {
    assert (y - x) * (y - x) == y * y - 2 * x * y + x * x;
    assert 2 * x * (s + y) == 2 * x * s + 2 * x * y;
    assert (m + 1) * (x * x) == m * (x * x) + x * x;
  }

  /** count * sum2 - sum * sum is never negative: adding x grows it by the
      squared distances of the earlier measurements from x. */
  lemma {:induction false} SpreadNonnegative(xs: seq<int>)
    ensures |xs| * SumSquares(xs) - Total(xs) * Total(xs) >= 0
  {
    if xs != [] {
      var ys, x := xs[..|xs| - 1], xs[|xs| - 1];
      SpreadNonnegative(ys);
      DeviationsExpanded(ys, x);
      SpreadStep(|ys|, SumSquares(ys), Total(ys), x);
    }
  }

  lemma SpreadStep(n: int, q: int, s: int, x: int)
    ensures (n + 1) * (q + x * x) - (s + x) * (s + x)
         == (n * q - s * s) + (q - 2 * x * s + n * (x * x))
  {
    assert (n + 1) * (q + x * x) == n * q + q + n * (x * x) + x * x;
    assert (s + x) * (s + x) == s * s + 2 * x * s + x * x;
  }

  /** The numerator as written, sum2 - sum * sum, is negative for the
      measurements 1 and 1, whose variance is 0; the corrected numerator is
      0 there. */
  lemma VarianceNumeratorCounterexample()
    ensures SumSquares([1, 1]) - Total([1, 1]) * Total([1, 1]) == -2
    ensures 2 * SumSquares([1, 1]) - Total([1, 1]) * Total([1, 1]) == 0
  {
    assert [1, 1][..1] == [1];
    assert [1][..0] == [];
  }

  class NaiveInteger {
    var sum: int
    var sum2: int
    var count: nat
    /** The measurements added since construction or the last Reset. */
    ghost var values: seq<int>

    ghost predicate Valid()
      reads this
    {
      sum == Total(values) && sum2 == SumSquares(values) && count == |values|
    }

    constructor ()
      ensures Valid() && values == []
    {
      sum, sum2, count := 0, 0, 0;
      values := [];
    }

    /** Add(x): one more measurement. */
    method Add(x: int)
      requires Valid()
      modifies this
      ensures Valid() && values == old(values) + [x]
      ensures count == old(count) + 1 && sum == old(sum) + x && sum2 == old(sum2) + x * x
    {
      count := count + 1;
      sum := sum + x;
      sum2 := sum2 + x * x;
      values := values + [x];
      assert values[..|values| - 1] == old(values);
    }

    /** Reset: back to no measurements. */
    method Reset()
      modifies this
      ensures Valid() && values == []
    {
      sum, sum2, count := 0, 0, 0;
      values := [];
    }

    /** Sum(): the sum of the measurements. */
    function Sum(): (r: int)
      requires Valid()
      reads this
      ensures r == Total(values)
    {
      sum
    }

    /** Count(): the number of measurements. */
    function Count(): (r: nat)
      requires Valid()
      reads this
      ensures r == |values|
    {
      count
    }

    /** Mean(): sum / count, NaN (None) with no measurement. */
    function Mean(): (r: Option<real>)
      requires Valid()
      reads this
      ensures r.None? <==> values == []
      ensures r.Some? ==> r.value * |values| as real == Total(values) as real
    {
      if count == 0 then None else Some(sum as real / count as real)
    }

    /** Variance(corrected) as written: NaN (None) below two measurements,
        otherwise (sum2 - sum * sum) / (count * ccount) with ccount the
        count, less one when corrected. */
    function VarianceAsWritten(corrected: bool): (r: Option<real>)
      requires Valid()
      reads this
      ensures r.None? <==> |values| < 2
    {
      if count < 2 then None
      else
        var ccount := if corrected then count - 1 else count;
        Some((sum2 - sum * sum) as real / (count * ccount) as real)
    }

    /** Variance(corrected) with the numerator count * sum2 - sum * sum:
        NaN (None) below two measurements, never negative otherwise. */
    function Variance(corrected: bool): (r: Option<real>)
      requires Valid()
      reads this
      ensures r.None? <==> |values| < 2
      ensures r.Some? ==> r.value >= 0.0
    {
      if count < 2 then None
      else
        var ccount := if corrected then count - 1 else count;
        SpreadNonnegative(values);
        Some((count * sum2 - sum * sum) as real / (count * ccount) as real)
    }

    /** ScaledVariance(): NaN (None) below two measurements, otherwise
        (sum2 - sum * sum) / count. */
    function ScaledVariance(): (r: Option<real>)
      requires Valid()
      reads this
      ensures r.None? <==> |values| < 2
    {
      if count < 2 then None else Some((sum2 - sum * sum) as real / count as real)
    }
  }

  /** Adding 1 twice: the variance as written is negative, the corrected one
      is 0. */
  method VarianceExample() returns (asWritten: Option<real>, corrected: Option<real>)
    ensures asWritten == Some(-0.5) && corrected == Some(0.0)
  {
    var acc := new NaiveInteger();
    acc.Add(1);
    acc.Add(1);
    VarianceNumeratorCounterexample();
    asWritten := acc.VarianceAsWritten(false);
    corrected := acc.Variance(false);
  }
}
