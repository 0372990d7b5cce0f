/**
 * The symmetric lower-triangle walk over a contiguous range of indices
 * `[s, s + m)`. It is the body of `kernel_sums` in kernel/kernel1.c after
 * the buffer is zeroed (with `s = 0`, `m = n`), and the whole of
 * `kernel_sums_diag` in kernel/kernel2.c (with `s` the block start, which
 * the C code passes as the pointers `x + i`, `c + i`, `f + i`).
 *
 * The walk adds to the output rather than overwriting it. The trace `evals`
 * lists, in order, the index pairs on which the kernel was evaluated.
 */
module Triangle {
  import opened KernelEval
  import opened PairSums

  /**
   * The state of row `i` (absolute index `s + i`) after its first `j` pairs:
   * `f[s + i]` holds the contributions of `x[s .. s + j)`, each `f[p]` for
   * `p` in `[s, s + j)` holds the contribution of `x[s + i]`, and nothing
   * else has changed since `f0`.
   */
  ghost predicate RowDone(s: nat, i: nat, j: nat, x: seq<FeatureVector>, c: seq<real>,
                          f0: seq<real>, f: seq<real>)
  {
    && j <= i && s + i < |x| && s + i < |c| && s + i < |f0| && |f| == |f0|
    && f[s + i] == f0[s + i] + RowSum(x, c, s + i, s, s + j)
    && (forall p {:trigger f[p]} :: s <= p < s + j ==> f[p] == f0[p] + Kernel(x[p], x[s + i]) * c[s + i])
    && (forall p {:trigger f[p]} :: 0 <= p < |f| && !(s <= p < s + j) && p != s + i ==> f[p] == f0[p])
  }

  /** One pair `(s + i, s + j)` of the row: both ends receive the other's weighted kernel value. */
  lemma RowStep(s: nat, i: nat, j: nat, x: seq<FeatureVector>, c: seq<real>,
                f0: seq<real>, f: seq<real>, kr: real)
    requires RowDone(s, i, j, x, c, f0, f) && j < i
    requires kr == Kernel(x[s + i], x[s + j])
    ensures RowDone(s, i, j + 1, x, c, f0, f[s + i := f[s + i] + kr * c[s + j]][s + j := f[s + j] + kr * c[s + i]])
  {
    KernelSymmetric(x[s + i], x[s + j]);
  }

  /**
   * The inner loop for row `i` of the range (absolute index `s + i`):
   * one kernel evaluation per earlier point `s + j`, `j < i`, whose value
   * is added, weighted, to both ends of the pair.
   */
  method TriangleRow(s: nat, i: nat, x: seq<FeatureVector>, c: seq<real>, f0: seq<real>)
    returns (f: seq<real>, evals: seq<Eval>)
    requires s + i < |x| && s + i < |c| && s + i < |f0|
    ensures |f| == |f0|
    ensures f[s + i] == f0[s + i] + RowSum(x, c, s + i, s, s + i)
    ensures forall p {:trigger f[p]} :: s <= p < s + i ==> f[p] == f0[p] + Kernel(x[p], x[s + i]) * c[s + i]
    ensures forall p {:trigger f[p]} :: 0 <= p < |f| && !(s <= p <= s + i) ==> f[p] == f0[p]
    ensures IsRowTrace(evals, s + i, s, i)
  {
    f := f0;
    evals := [];
    var j := 0;
    while j < i
      invariant RowDone(s, i, j, x, c, f0, f)
      invariant IsRowTrace(evals, s + i, s, j)
    {
      var r2 := FeatureDist2(x[s + i], x[s + j]);
      var kr := Exp(-r2 / 2.0);
      RowStep(s, i, j, x, c, f0, f, kr);
      f := f[s + i := f[s + i] + kr * c[s + j]];
      f := f[s + j := f[s + j] + kr * c[s + i]];
      evals := evals + [Eval(s + i, s + j)];
      j := j + 1;
    }
  }

  /**
   * The state of the walk over `[s, s + m)` after its first `i` rows: every
   * `f[p]` with `p` in `[s, s + i)` has gained `c[p]` and the contributions
   * of `x[s .. s + i)`, and nothing else has changed since `f0`.
   */
  ghost predicate TriangleDone(s: nat, i: nat, x: seq<FeatureVector>, c: seq<real>,
                               f0: seq<real>, f: seq<real>)
  {
    && s + i <= |x| && s + i <= |c| && s + i <= |f0| && |f| == |f0|
    && (forall p {:trigger f[p]} :: s <= p < s + i ==> f[p] == f0[p] + c[p] + RowSum(x, c, p, s, s + i))
    && (forall p {:trigger f[p]} :: 0 <= p < |f| && !(s <= p < s + i) ==> f[p] == f0[p])
  }

  /** The evaluations in `evals` are exactly the pairs `b < a` of `[s, hi)`, each once. */
  ghost predicate TriangleCounted(evals: seq<Eval>, s: nat, hi: nat)
  {
    && s <= hi
    && |evals| == Pairs(hi - s)
    && forall a: nat, b: nat :: multiset(evals)[Eval(a, b)] == (if s <= b < a < hi then 1 else 0)
  }

  /** Adding `c[s + i]` and row `i` to a walk that has done `i` rows leaves one that has done `i + 1`. */
  lemma TriangleStep(s: nat, i: nat, x: seq<FeatureVector>, c: seq<real>,
                     f0: seq<real>, f: seq<real>, g: seq<real>)
    requires TriangleDone(s, i, x, c, f0, f)
    requires s + i < |x| && s + i < |c| && s + i < |f0|
    requires |g| == |f|
    requires g[s + i] == f[s + i] + c[s + i] + RowSum(x, c, s + i, s, s + i)
    requires forall p {:trigger g[p]} :: s <= p < s + i ==> g[p] == f[p] + Kernel(x[p], x[s + i]) * c[s + i]
    requires forall p {:trigger g[p]} :: 0 <= p < |g| && !(s <= p <= s + i) ==> g[p] == f[p]
    ensures TriangleDone(s, i + 1, x, c, f0, g)
  {
    forall p | s <= p <= s + i
      ensures g[p] == f0[p] + c[p] + RowSum(x, c, p, s, s + i + 1)
    {
      assert RowSum(x, c, p, s, s + i + 1)
          == RowSum(x, c, p, s, s + i) + (if p == s + i then 0.0 else Kernel(x[p], x[s + i]) * c[s + i]);
    }
  }

  /** Appending row `i`'s trace to the trace of the first `i` rows gives the trace of `i + 1` rows. */
  lemma TriangleCountedStep(evals: seq<Eval>, row: seq<Eval>, s: nat, i: nat)
    requires TriangleCounted(evals, s, s + i)
    requires IsRowTrace(row, s + i, s, i)
    ensures TriangleCounted(evals + row, s, s + i + 1)
  {
    assert Pairs(i + 1) == Pairs(i) + i;
    var counts := multiset(evals + row);
    forall a: nat, b: nat
      ensures counts[Eval(a, b)] == (if s <= b < a < s + i + 1 then 1 else 0)
    {
      RowTraceCounts(row, s + i, s, i);
      assert counts[Eval(a, b)] == multiset(evals)[Eval(a, b)] + multiset(row)[Eval(a, b)];
    }
  }

  /**
   * `kernel_sums_diag`: for every `p` in `[s, s + m)`, adds `c[p]` and the
   * contributions of every other point of the range; nothing outside the
   * range changes. Each pair of the range is evaluated exactly once.
   */
  method TriangleSums(s: nat, m: nat, x: seq<FeatureVector>, c: seq<real>, f0: seq<real>)
    returns (f: seq<real>, evals: seq<Eval>)
    requires s + m <= |x| && s + m <= |c| && s + m <= |f0|
    ensures |f| == |f0|
    ensures forall p {:trigger f[p]} :: s <= p < s + m ==> f[p] == f0[p] + c[p] + RowSum(x, c, p, s, s + m)
    ensures forall p {:trigger f[p]} :: 0 <= p < |f| && !(s <= p < s + m) ==> f[p] == f0[p]
    ensures forall a: nat, b: nat :: multiset(evals)[Eval(a, b)] == (if s <= b < a < s + m then 1 else 0)
    ensures |evals| == Pairs(m)
  {
    f := f0;
    evals := [];
    var i := 0;
    while i < m
      invariant i <= m
      invariant TriangleDone(s, i, x, c, f0, f)
      invariant TriangleCounted(evals, s, s + i)
    {
      var withSelf := f[s + i := f[s + i] + c[s + i]];
      var rowF, rowEvals := TriangleRow(s, i, x, c, withSelf);
      TriangleStep(s, i, x, c, f0, f, rowF);
      TriangleCountedStep(evals, rowEvals, s, i);
      f, evals := rowF, evals + rowEvals;
      i := i + 1;
    }
  }
}
