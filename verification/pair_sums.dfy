/**
 * The functional specification both summation algorithms are checked
 * against: for points `x[0..n)` with coefficients `c[0..n)`,
 *
 *     f[p] = c[p] + sum over q < n, q != p, of k(x_p, x_q) * c[q]
 *
 * written as recursive real-valued sums, together with the facts about
 * those sums that the algorithms' proofs and the boundary cases use.
 */
module PairSums {
  import opened KernelEval

  /** One evaluation of the kernel on the pair `(x[i], x[j])`, in that argument order. */
  datatype Eval = Eval(i: nat, j: nat)

  /**
   * The kernel-weighted contributions to `f[p]` from the points with
   * indices in `[lo, hi)`, leaving out `p` itself:
   * the sum over `q` in `[lo, hi)`, `q != p`, of `k(x_p, x_q) * c[q]`.
   */
  function RowSum(x: seq<FeatureVector>, c: seq<real>, p: nat, lo: nat, hi: nat): (r: real)
    requires p < |x| && lo <= hi <= |x| && hi <= |c|
    decreases hi - lo
  {
    if lo == hi then 0.0
    else RowSum(x, c, p, lo, hi - 1)
         + (if hi - 1 == p then 0.0 else Kernel(x[p], x[hi - 1]) * c[hi - 1])
  }

  /** The value both algorithms must leave in `f[p]`: `c[p]` plus every other point's contribution. */
  function KernelSumAt(x: seq<FeatureVector>, c: seq<real>, n: nat, p: nat): (r: real)
    requires p < n <= |x| && n <= |c|
  {
    c[p] + RowSum(x, c, p, 0, n)
  }

  /** The sum over every `q < hi` of `k(x_p, x_q) * c[q]`, the diagonal term included. */
  function FullRowSum(x: seq<FeatureVector>, c: seq<real>, p: nat, hi: nat): (r: real)
    requires p < |x| && hi <= |x| && hi <= |c|
  {
    if hi == 0 then 0.0
    else FullRowSum(x, c, p, hi - 1) + Kernel(x[p], x[hi - 1]) * c[hi - 1]
  }

  /**
   * `evals` is one row of a walk: the `n` evaluations `(a, lo)`,
   * `(a, lo + 1)`, ..., `(a, lo + n - 1)`, in that order.
   */
  ghost predicate IsRowTrace(evals: seq<Eval>, a: nat, lo: nat, n: nat)
  {
    |evals| == n && forall t {:trigger evals[t]} :: 0 <= t < n ==> evals[t] == Eval(a, lo + t)
  }

  /** A row trace evaluates each of its pairs exactly once and nothing else. */
  lemma {:induction false} RowTraceCounts(evals: seq<Eval>, a: nat, lo: nat, n: nat)
    requires IsRowTrace(evals, a, lo, n)
    ensures forall p: nat, q: nat ::
      multiset(evals)[Eval(p, q)] == (if p == a && lo <= q < lo + n then 1 else 0)
  {
    if n > 0 {
      var prefix, last := evals[..n - 1], Eval(a, lo + n - 1);
      RowTraceCounts(prefix, a, lo, n - 1);
      assert evals == prefix + [last];
      assert multiset(evals) == multiset(prefix) + multiset{last};
      forall p: nat, q: nat
        ensures multiset(evals)[Eval(p, q)] == (if p == a && lo <= q < lo + n then 1 else 0)
      {
        assert multiset{last}[Eval(p, q)] == (if p == a && q == lo + n - 1 then 1 else 0);
      }
    }
  }

  /** Number of unordered pairs of distinct indices below `n`. */
  function Pairs(n: nat): (count: nat)
  {
    if n == 0 then 0 else Pairs(n - 1) + (n - 1)
  }

  /** A row sum over `[lo, hi)` splits at any point `mid` in between. */
  lemma {:induction false} RowSumSplit(x: seq<FeatureVector>, c: seq<real>,
                                        p: nat, lo: nat, mid: nat, hi: nat)
    requires p < |x| && lo <= mid <= hi <= |x| && hi <= |c|
    ensures RowSum(x, c, p, lo, hi) == RowSum(x, c, p, lo, mid) + RowSum(x, c, p, mid, hi)
    decreases hi - mid
  {
    if mid < hi {
      RowSumSplit(x, c, p, lo, mid, hi - 1);
    }
  }

  /** Points whose coefficients are all zero contribute nothing. */
  lemma {:induction false} RowSumOfZeroCoefficients(x: seq<FeatureVector>, c: seq<real>,
                                                     p: nat, lo: nat, hi: nat)
    requires p < |x| && lo <= hi <= |x| && hi <= |c|
    requires forall q :: lo <= q < hi ==> c[q] == 0.0
    ensures RowSum(x, c, p, lo, hi) == 0.0
    decreases hi - lo
  {
    if lo < hi {
      RowSumOfZeroCoefficients(x, c, p, lo, hi - 1);
    }
  }

  /** With every coefficient zero, every output is zero. */
  lemma ZeroCoefficients(x: seq<FeatureVector>, c: seq<real>, n: nat)
    requires n <= |x| && n <= |c|
    requires forall q :: 0 <= q < n ==> c[q] == 0.0
    ensures forall p :: 0 <= p < n ==> KernelSumAt(x, c, n, p) == 0.0
  {
    forall p | 0 <= p < n
      ensures KernelSumAt(x, c, n, p) == 0.0
    {
      RowSumOfZeroCoefficients(x, c, p, 0, n);
    }
  }

  /** A single point has no partner: its output is its own coefficient. */
  lemma SinglePoint(x: seq<FeatureVector>, c: seq<real>)
    requires 1 <= |x| && 1 <= |c|
    ensures KernelSumAt(x, c, 1, 0) == c[0]
  {
  }

  /** Two points: each output adds the other's coefficient weighted by the one shared kernel value. */
  lemma SinglePair(x: seq<FeatureVector>, c: seq<real>)
    requires 2 <= |x| && 2 <= |c|
    ensures KernelSumAt(x, c, 2, 0) == c[0] + Kernel(x[0], x[1]) * c[1]
    ensures KernelSumAt(x, c, 2, 1) == c[1] + Kernel(x[0], x[1]) * c[0]
  {
    KernelSymmetric(x[1], x[0]);
  }

  /**
   * The kernel's diagonal is `exp(0) = 1`, so `c[p]` is exactly the
   * diagonal term: the output equals the plain matrix-vector row
   * `sum over all q < n of k(x_p, x_q) * c[q]`, the sum as the source
   * comments write it.
   */
  lemma UnitDiagonal(x: seq<FeatureVector>, c: seq<real>, n: nat, p: nat)
    requires p < n <= |x| && n <= |c|
    ensures KernelSumAt(x, c, n, p) == FullRowSum(x, c, p, n)
  {
    FullRowSumSplitsDiagonal(x, c, p, n);
  }

  lemma {:induction false} FullRowSumSplitsDiagonal(x: seq<FeatureVector>, c: seq<real>,
                                                     p: nat, hi: nat)
    requires p < |x| && hi <= |x| && hi <= |c|
    ensures FullRowSum(x, c, p, hi) == RowSum(x, c, p, 0, hi) + (if p < hi then c[p] else 0.0)
  {
    if hi > 0 {
      FullRowSumSplitsDiagonal(x, c, p, hi - 1);
      if hi - 1 == p {
        KernelSelf(x[p]);
      }
    }
  }

  /** `Pairs(n)` is the familiar `n (n - 1) / 2`. */
  lemma {:induction false} PairsClosedForm(n: nat)
    ensures Pairs(n) == n * (n - 1) / 2
  {
    if n > 0 {
      PairsClosedForm(n - 1);
      assert n * (n - 1) == (n - 1) * (n - 2) + 2 * (n - 1);
    }
  }

  /** The pairs among `a + b` points: those among the first `a`, those among the last `b`, and the `a * b` across. */
  lemma {:induction false} PairsOfUnion(a: nat, b: nat)
    ensures Pairs(a + b) == Pairs(a) + Pairs(b) + a * b
  {
    if b > 0 {
      PairsOfUnion(a, b - 1);
      assert a * b == a * (b - 1) + a;
    }
  }
}
