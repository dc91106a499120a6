/** Population mean and standard deviation as the mergers use them (numpy's
    `mean` and `std`). The mean is exact over `real`. The standard deviation
    needs a square root, so it is a parameter of every merger; `IsPopulationStd`
    says what a correct one must satisfy. */
module Statistics {
  import opened Types

  function Sum(xs: seq<real>): real
  {
    if |xs| == 0 then 0.0 else Sum(xs[..|xs| - 1]) + xs[|xs| - 1]
  }

  lemma {:induction false} SumAppend(a: seq<real>, b: seq<real>)
    ensures Sum(a + b) == Sum(a) + Sum(b)
    decreases |b|
  {
    if |b| == 0 {
      assert a + b == a;
    } else {
      assert (a + b)[..|a + b| - 1] == a + b[..|b| - 1];
      SumAppend(a, b[..|b| - 1]);
    }
  }

  /** The population mean; NaN for an empty list, as numpy returns. */
  function Mean(xs: seq<real>): Float
  {
    if |xs| == 0 then NaN else Finite(Sum(xs) / |xs| as real)
  }

  /** The deviation `std` reports, or NaN for an empty list. */
  function StdOf(xs: seq<real>, std: seq<real> -> real): Float
  {
    if |xs| == 0 then NaN else Finite(std(xs))
  }

  /** The `[mean, std]` pair a merger writes for one pooled list. */
  function Summary(xs: seq<real>, std: seq<real> -> real): seq<Float>
  {
    [Mean(xs), StdOf(xs, std)]
  }

  /** The sum of `(x - c)^2` over `xs`. */
  function SquaredDeviations(xs: seq<real>, c: real): real
  {
    if |xs| == 0 then 0.0
    else SquaredDeviations(xs[..|xs| - 1], c) + (xs[|xs| - 1] - c) * (xs[|xs| - 1] - c)
  }

  /** The population variance (divide by N, not N - 1). */
  function Variance(xs: seq<real>): real
    requires |xs| > 0
  {
    SquaredDeviations(xs, Sum(xs) / |xs| as real) / |xs| as real
  }

  /** `r` is a non-negative square root of `v`. */
  predicate IsRootOf(r: real, v: real)
  {
    r >= 0.0 && r * r == v
  }

  /** `std` is the population standard deviation: a non-negative square
      root of the variance of every non-empty list. */
  ghost predicate IsPopulationStd(std: seq<real> -> real)
  {
    forall xs: seq<real> :: |xs| > 0 ==> IsRootOf(std(xs), Variance(xs))
  }

  /** Every element of `xs` is `c`. */
  predicate Constant(xs: seq<real>, c: real)
  {
    forall i :: 0 <= i < |xs| ==> xs[i] == c
  }

  lemma {:induction false} SumOfConstant(xs: seq<real>, c: real)
    requires Constant(xs, c)
    ensures Sum(xs) == |xs| as real * c
    decreases |xs|
  {
    if |xs| > 0 {
      SumOfConstant(xs[..|xs| - 1], c);
    }
  }

  lemma {:induction false} NoDeviationFromConstant(xs: seq<real>, c: real)
    requires Constant(xs, c)
    ensures SquaredDeviations(xs, c) == 0.0
    decreases |xs|
  {
    if |xs| > 0 {
      NoDeviationFromConstant(xs[..|xs| - 1], c);
    }
  }

  /** The mean lies between any lower and upper bound of the samples. */
  lemma {:induction false} MeanBounds(xs: seq<real>, lo: real, hi: real)
    requires |xs| > 0
    requires forall i :: 0 <= i < |xs| ==> lo <= xs[i] <= hi
    ensures Mean(xs).Finite?
    ensures lo <= Mean(xs).x <= hi
  {
    SumBounds(xs, lo, hi);
    var n := |xs| as real;
    assert Sum(xs) / n * n == Sum(xs);
  }

  lemma {:induction false} SumBounds(xs: seq<real>, lo: real, hi: real)
    requires forall i :: 0 <= i < |xs| ==> lo <= xs[i] <= hi
    ensures |xs| as real * lo <= Sum(xs) <= |xs| as real * hi
    decreases |xs|
  {
    if |xs| > 0 {
      var init := xs[..|xs| - 1];
      assert forall i :: 0 <= i < |init| ==> init[i] == xs[i];
      SumBounds(init, lo, hi);
      assert |xs| as real * lo == |init| as real * lo + lo;
      assert |xs| as real * hi == |init| as real * hi + hi;
    }
  }

  /** A list of one repeated value summarises to that value and a
      deviation that is a non-negative root of zero: merging samples that
      agree adds no spread. */
  lemma ConstantSummary(xs: seq<real>, c: real, std: seq<real> -> real)
    requires |xs| > 0 && Constant(xs, c)
    requires IsPopulationStd(std)
    ensures Variance(xs) == 0.0
    ensures Summary(xs, std) == [Finite(c), Finite(std(xs))]
    ensures IsRootOf(std(xs), 0.0)
  {
    var n := |xs| as real;
    SumOfConstant(xs, c);
    assert Sum(xs) / n == c;
    NoDeviationFromConstant(xs, c);
  }

  /** The mean of a concatenation is the length-weighted mean of the parts:
      pooling files is not the same as averaging their means. */
  lemma PooledMean(a: seq<real>, b: seq<real>)
    requires |a| > 0 && |b| > 0
    ensures Mean(a + b).Finite? && Mean(a).Finite? && Mean(b).Finite?
    ensures Mean(a + b).x * (|a| + |b|) as real
         == Mean(a).x * |a| as real + Mean(b).x * |b| as real
  {
    SumAppend(a, b);
    var na, nb := |a| as real, |b| as real;
    assert Mean(a).x * na == Sum(a);
    assert Mean(b).x * nb == Sum(b);
    assert Mean(a + b).x * (na + nb) == Sum(a + b);
  }

  /** One `[mean, std]` pair per column, laid out in column order. */
  function PairsRow(cols: seq<seq<real>>, std: seq<real> -> real): (row: seq<Float>)
    ensures |row| == 2 * |cols|
    ensures forall i :: 0 <= i < |cols| ==> row[2 * i] == Mean(cols[i]) && row[2 * i + 1] == StdOf(cols[i], std)
  {
    if |cols| == 0 then []
    else
      var prev := PairsRow(cols[..|cols| - 1], std);
      assert forall i :: 0 <= i < |cols| - 1 ==> cols[..|cols| - 1][i] == cols[i];
      prev + Summary(cols[|cols| - 1], std)
  }
}
