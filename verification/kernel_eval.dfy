/**
 * The kernel evaluator: the squared Euclidean distance between two feature
 * vectors (`feature_dist2`) and the radial kernel `exp(-r2/2)` built on it.
 *
 * Arithmetic is over `real`, so sums are exact. Dafny's `real` type has
 * no exponential, so `Exp` below stands in for the C library's `exp`; what the
 * summation algorithms rely on is only that the kernel is a function of the
 * squared distance, which makes it symmetric because `Dist2` is (proved
 * here).
 */
module KernelEval {

  /** Number of components of every feature vector (`#define D 100`). */
  const D: nat := 100

  /** A feature vector: exactly `D` real components. */
  type FeatureVector = v: seq<real> | |v| == D witness seq(D, _ => 0.0)

  /** Sum of squared component differences over the first `k` components. */
  function PartialDist2(x: seq<real>, y: seq<real>, k: nat): (r: real)
    requires k <= |x| && k <= |y|
  {
    if k == 0 then 0.0
    else PartialDist2(x, y, k - 1) + (x[k - 1] - y[k - 1]) * (x[k - 1] - y[k - 1])
  }

  /** Squared Euclidean distance: the sum over all `D` components of `(x[d] - y[d])^2`. */
  function Dist2(x: FeatureVector, y: FeatureVector): (r: real)
  {
    PartialDist2(x, y, D)
  }

  /** Number of Taylor terms in `Exp`. */
  const ExpTerms: nat := 16

  /** `r^k / k!`, the `k`-th term of the Taylor series of `e^r`. */
  function ExpTerm(r: real, k: nat): (t: real)
  {
    if k == 0 then 1.0 else ExpTerm(r, k - 1) * r / (k as real)
  }

  /** The sum of the first `n` terms of the Taylor series of `e^r`. */
  function ExpSeries(r: real, n: nat): (s: real)
  {
    if n == 0 then 0.0 else ExpSeries(r, n - 1) + ExpTerm(r, n - 1)
  }

  /**
   * Stand-in for `exp` from the C math library, since Dafny's `real` type
   * has no exponential: the Taylor polynomial of `e^r` with `ExpTerms` terms.
   * The summation algorithms never look inside it; the only property of it
   * this model uses is `exp(0) = 1`.
   */
  function Exp(r: real): (e: real)
  {
    ExpSeries(r, ExpTerms)
  }

  /** Every Taylor term past the first vanishes at 0. */
  lemma {:induction false} ExpTermAtZero(k: nat)
    requires k >= 1
    ensures ExpTerm(0.0, k) == 0.0
  {
    if k > 1 {
      ExpTermAtZero(k - 1);
    }
  }

  /** `e^0 = 1` for every truncation that keeps the constant term. */
  lemma {:induction false} ExpSeriesAtZero(n: nat)
    requires n >= 1
    ensures ExpSeries(0.0, n) == 1.0
  {
    if n > 1 {
      ExpSeriesAtZero(n - 1);
      ExpTermAtZero(n - 1);
    }
  }

  /**
   * The radial kernel `k(a, b) = exp(-|a - b|^2 / 2)`, built on the Taylor
   * stand-in `Exp` rather than the true exponential.
   */
  function Kernel(a: FeatureVector, b: FeatureVector): (k: real)
  {
    Exp(-Dist2(a, b) / 2.0)
  }

  /** `feature_dist2`: accumulates the squared differences component by component. */
  method FeatureDist2(x: FeatureVector, y: FeatureVector) returns (r: real)
    ensures r == Dist2(x, y)
    ensures r >= 0.0
    ensures r == Dist2(y, x)
  {
    r := 0.0;
    var i := 0;
    while i < D
      invariant 0 <= i <= D
      invariant r == PartialDist2(x, y, i)
    {
      var di := x[i] - y[i];
      r := r + di * di;
      i := i + 1;
    }
    Dist2NonNegative(x, y);
    Dist2Symmetric(x, y);
  }

  lemma {:induction false} PartialDist2NonNegative(x: seq<real>, y: seq<real>, k: nat)
    requires k <= |x| && k <= |y|
    ensures PartialDist2(x, y, k) >= 0.0
  {
    if k > 0 {
      PartialDist2NonNegative(x, y, k - 1);
      var d := x[k - 1] - y[k - 1];
      assert d * d >= 0.0;
    }
  }

  lemma {:induction false} PartialDist2Symmetric(x: seq<real>, y: seq<real>, k: nat)
    requires k <= |x| && k <= |y|
    ensures PartialDist2(x, y, k) == PartialDist2(y, x, k)
  {
    if k > 0 {
      PartialDist2Symmetric(x, y, k - 1);
      var d := x[k - 1] - y[k - 1];
      assert (y[k - 1] - x[k - 1]) * (y[k - 1] - x[k - 1]) == (-d) * (-d) == d * d;
    }
  }

  /** The partial sum of a vector with itself is zero. */
  lemma {:induction false} PartialDist2Self(x: seq<real>, k: nat)
    requires k <= |x|
    ensures PartialDist2(x, x, k) == 0.0
  {
    if k > 0 {
      PartialDist2Self(x, k - 1);
      assert x[k - 1] - x[k - 1] == 0.0;
    }
  }

  /** `feature_dist2` is non-negative. */
  lemma Dist2NonNegative(x: FeatureVector, y: FeatureVector)
    ensures Dist2(x, y) >= 0.0
  {
    PartialDist2NonNegative(x, y, D);
  }

  /** `feature_dist2` is symmetric in its two arguments. */
  lemma Dist2Symmetric(x: FeatureVector, y: FeatureVector)
    ensures Dist2(x, y) == Dist2(y, x)
  {
    PartialDist2Symmetric(x, y, D);
  }

  /** `feature_dist2` of a vector with itself is zero. */
  lemma Dist2Self(x: FeatureVector)
    ensures Dist2(x, x) == 0.0
  {
    PartialDist2Self(x, D);
  }

  /** The kernel value is the same whichever vector comes first. */
  lemma KernelSymmetric(a: FeatureVector, b: FeatureVector)
    ensures Kernel(a, b) == Kernel(b, a)
  {
    Dist2Symmetric(a, b);
  }

  /** A vector's kernel value with itself is `exp(0) = 1`: the kernel matrix has a unit diagonal. */
  lemma KernelSelf(a: FeatureVector)
    ensures Kernel(a, a) == 1.0
  {
    Dist2Self(a);
    ExpSeriesAtZero(ExpTerms);
  }
}
