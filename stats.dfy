/**
 * The reductions pandas and NumPy apply to a numeric column. `Series.sum`,
 * `Series.mean` and `Series.prod` skip NaN (an empty mean is NaN, an empty
 * product is one); `np.mean` and `np.cov` do not skip anything.
 */
module Stats {
  import opened Floats
  import opened Seqs

  /** The values `skipna=True` keeps. */
  function Present(vals: seq<Float>): (p: seq<Float>)
    ensures |p| <= |vals|
    ensures forall i :: 0 <= i < |p| ==> !p[i].NaN? && p[i] in vals
  {
    Filter(vals, (v: Float) => !v.NaN?)
  }

  /** The float sum of every value, added left to right. */
  function Total(vals: seq<Float>): Float
    decreases |vals|
  {
    if |vals| == 0 then Fin(0.0) else Add(Total(vals[..|vals| - 1]), vals[|vals| - 1])
  }

  /** The float product of every value, multiplied left to right. */
  function Product(vals: seq<Float>): Float
    decreases |vals|
  {
    if |vals| == 0 then Fin(1.0) else Mul(Product(vals[..|vals| - 1]), vals[|vals| - 1])
  }

  /** `Series.mean()`: the sum of the present values over their number, NaN when there is none. */
  function Mean(vals: seq<Float>): (m: Float)
    ensures |Present(vals)| == 0 ==> m.NaN?
  {
    var p := Present(vals);
    if |p| == 0 then NaN else Div(Total(p), Fin(|p| as real))
  }

  /** `Series.prod()`: the product of the present values, one when there is none. */
  function Prod(vals: seq<Float>): Float
  {
    Product(Present(vals))
  }

  /** `1 + returns`: the growth factor of each day. */
  function Growth(daily: seq<Float>): (g: seq<Float>)
    ensures |g| == |daily| && forall i :: 0 <= i < |daily| ==> g[i] == Add(Fin(1.0), daily[i])
  {
    Map(daily, (r: Float) => Add(Fin(1.0), r))
  }

  /** `np.mean`: NaN is not skipped. */
  function NpMean(vals: seq<Float>): Float
  {
    if |vals| == 0 then NaN else Div(Total(vals), Fin(|vals| as real))
  }

  /** The product of the deviations of row `i` from the two means. */
  function CoDeviation(xs: seq<Float>, ys: seq<Float>, i: int): Float
    requires |xs| == |ys| && 0 <= i < |xs|
  {
    Mul(Sub(xs[i], NpMean(xs)), Sub(ys[i], NpMean(ys)))
  }

  function CoDeviations(xs: seq<Float>, ys: seq<Float>): (ds: seq<Float>)
    requires |xs| == |ys|
    ensures |ds| == |xs| && forall i :: 0 <= i < |xs| ==> ds[i] == CoDeviation(xs, ys, i)
  {
    seq(|xs|, i requires 0 <= i < |xs| => CoDeviation(xs, ys, i))
  }

  /** `np.cov(xs, ys)[0, 1]`: the sample covariance, with `N - 1` in the denominator. */
  function Cov(xs: seq<Float>, ys: seq<Float>): Float
    requires |xs| == |ys|
  {
    Div(Total(CoDeviations(xs, ys)), Fin((|xs| - 1) as real))
  }

  // ---------------------------------------------------------------------------
  // Reference definitions on reals

  predicate AllFinite(vals: seq<Float>)
  {
    forall i :: 0 <= i < |vals| ==> vals[i].Fin?
  }

  function RealSum(xs: seq<Float>): real
    decreases |xs|
  {
    if |xs| == 0 then 0.0 else RealSum(xs[..|xs| - 1]) + (if xs[|xs| - 1].Fin? then xs[|xs| - 1].v else 0.0)
  }

  function RealProduct(xs: seq<Float>): real
    decreases |xs|
  {
    if |xs| == 0 then 1.0 else RealProduct(xs[..|xs| - 1]) * (if xs[|xs| - 1].Fin? then xs[|xs| - 1].v else 1.0)
  }

  // ---------------------------------------------------------------------------
  // Properties

  /** With finite values only, the float sum is the real sum. */
  lemma {:induction false} TotalFinite(vals: seq<Float>)
    requires AllFinite(vals)
    ensures Total(vals) == Fin(RealSum(vals))
    decreases |vals|
  {
    if |vals| > 0 {
      TotalFinite(vals[..|vals| - 1]);
    }
  }

  /** With finite values only, the float product is the real product. */
  lemma {:induction false} ProductFinite(vals: seq<Float>)
    requires AllFinite(vals)
    ensures Product(vals) == Fin(RealProduct(vals))
    decreases |vals|
  {
    if |vals| > 0 {
      ProductFinite(vals[..|vals| - 1]);
    }
  }

  /** Skipping NaN changes nothing when no value is NaN. */
  lemma PresentAll(vals: seq<Float>)
    requires forall i :: 0 <= i < |vals| ==> !vals[i].NaN?
    ensures Present(vals) == vals
  {
    FilterAll(vals, (v: Float) => !v.NaN?);
  }

  /** The mean skips missing values: it is the mean of the present values alone. */
  lemma MeanOfPresent(vals: seq<Float>)
    ensures Mean(vals) == Mean(Present(vals))
  {
    PresentAll(Present(vals));
  }

  /** With finite values only, the mean is the real sum over the count. */
  lemma MeanFinite(vals: seq<Float>)
    requires AllFinite(vals) && |vals| > 0
    ensures Mean(vals) == Fin(RealSum(vals) / |vals| as real)
    ensures NpMean(vals) == Mean(vals)
  {
    PresentAll(vals);
    TotalFinite(vals);
  }

  /** A constant sum: `n` copies of `c` add up to `n * c`. */
  lemma {:induction false} RealSumConstant(vals: seq<Float>, c: real)
    requires forall i :: 0 <= i < |vals| ==> vals[i] == Fin(c)
    ensures RealSum(vals) == |vals| as real * c
    decreases |vals|
  {
    if |vals| > 0 {
      RealSumConstant(vals[..|vals| - 1], c);
    }
  }

  /** The mean of a constant column is that constant. */
  lemma MeanConstant(vals: seq<Float>, c: real)
    requires |vals| > 0 && forall i :: 0 <= i < |vals| ==> vals[i] == Fin(c)
    ensures Mean(vals) == Fin(c) && NpMean(vals) == Fin(c)
  {
    MeanFinite(vals);
    ConstantAverage(vals, c);
  }

  /** The real sum of `n` copies of `c`, over `n`, is `c`. */
  lemma ConstantAverage(vals: seq<Float>, c: real)
    requires |vals| > 0 && forall i :: 0 <= i < |vals| ==> vals[i] == Fin(c)
    ensures RealSum(vals) / (|vals| as real) == c
  {
    RealSumConstant(vals, c);
    DivCancel(RealSum(vals), |vals| as real, c);
  }

  lemma DivCancel(total: real, n: real, c: real)
    requires n > 0.0 && total == n * c
    ensures total / n == c
  {
  }

  /** A product of ones is one. */
  lemma {:induction false} ProductOfOnes(vals: seq<Float>)
    requires forall i :: 0 <= i < |vals| ==> vals[i] == Fin(1.0)
    ensures Product(vals) == Fin(1.0)
    decreases |vals|
  {
    if |vals| > 0 {
      ProductOfOnes(vals[..|vals| - 1]);
    }
  }

  /** A float sum of finite non-negative values is finite and non-negative. */
  lemma {:induction false} TotalNonNegative(vals: seq<Float>)
    requires forall i :: 0 <= i < |vals| ==> vals[i].Fin? && vals[i].v >= 0.0
    ensures Total(vals).Fin? && Total(vals).v >= 0.0
    decreases |vals|
  {
    if |vals| > 0 {
      TotalNonNegative(vals[..|vals| - 1]);
    }
  }

  /** A float sum of zeros is zero. */
  lemma {:induction false} TotalOfZeros(vals: seq<Float>)
    requires forall i :: 0 <= i < |vals| ==> vals[i] == Fin(0.0)
    ensures Total(vals) == Fin(0.0)
    decreases |vals|
  {
    if |vals| > 0 {
      TotalOfZeros(vals[..|vals| - 1]);
    }
  }

  /** The sample variance `np.cov(xs, xs)` of finite values is finite and never negative. */
  lemma VarianceNonNegative(xs: seq<Float>)
    requires AllFinite(xs) && |xs| >= 2
    ensures Cov(xs, xs).Fin? && Cov(xs, xs).v >= 0.0
  {
    MeanFinite(xs);
    var m := NpMean(xs);
    var ds := CoDeviations(xs, xs);
    forall i | 0 <= i < |xs| ensures ds[i].Fin? && ds[i].v >= 0.0 {
      SubFinite(xs[i].v, m.v);
      var d := xs[i].v - m.v;
      assert ds[i] == Fin(d * d);
    }
    TotalNonNegative(ds);
  }

  /** A constant column has sample variance zero. */
  lemma VarianceOfConstant(xs: seq<Float>, c: real)
    requires |xs| >= 2 && forall i :: 0 <= i < |xs| ==> xs[i] == Fin(c)
    ensures Cov(xs, xs) == Fin(0.0)
  {
    MeanConstant(xs, c);
    var ds := CoDeviations(xs, xs);
    SubFinite(c, c);
    assert Mul(Fin(0.0), Fin(0.0)) == Fin(0.0);
    forall i | 0 <= i < |xs| ensures ds[i] == Fin(0.0) {
      assert ds[i] == Mul(Sub(Fin(c), Fin(c)), Sub(Fin(c), Fin(c)));
    }
    TotalOfZeros(ds);
    var k := (|xs| - 1) as real;
    DivCancel(0.0, k, 0.0);
    assert Cov(xs, xs) == Div(Fin(0.0), Fin(k));
  }

  /** The sample covariance of two finite columns of at least two values is finite. */
  lemma CovFinite(xs: seq<Float>, ys: seq<Float>)
    requires |xs| == |ys| >= 2 && AllFinite(xs) && AllFinite(ys)
    ensures Cov(xs, ys).Fin?
  {
    MeanFinite(xs);
    MeanFinite(ys);
    var ds := CoDeviations(xs, ys);
    forall i | 0 <= i < |xs| ensures ds[i].Fin? {
      SubKeepsFinite(xs[i], NpMean(xs));
      SubKeepsFinite(ys[i], NpMean(ys));
    }
    TotalFinite(ds);
  }
}
