/**
 * The direct symmetric summation (`kernel_sums` of kernel/kernel1.c).
 *
 * The output buffer is passed in with whatever it held before (`f0`) and
 * returned updated: the method zeroes `f[0..n)`, then walks the strict lower
 * triangle `j < i < n` (the walk shared with the blocked form's diagonal
 * blocks), evaluating the kernel once per pair and adding the value to both
 * `f[i]` (weighted by `c[j]`) and `f[j]` (weighted by `c[i]`). The trace
 * `evals` lists the pairs on which the kernel was evaluated.
 */
module Direct {
  import opened KernelEval
  import opened PairSums
  import opened Triangle

  method KernelSums(n: nat, x: seq<FeatureVector>, c: seq<real>, f0: seq<real>)
    returns (f: seq<real>, evals: seq<Eval>)
    requires n <= |x| && n <= |c| && n <= |f0|
    ensures |f| == |f0|
    ensures forall p :: 0 <= p < n ==> f[p] == KernelSumAt(x, c, n, p)
    ensures forall p :: n <= p < |f| ==> f[p] == f0[p]
    ensures forall a: nat, b: nat :: multiset(evals)[Eval(a, b)] == (if b < a < n then 1 else 0)
    ensures |evals| == n * (n - 1) / 2
  {
    var zeroed := seq(n, _ => 0.0) + f0[n..];  // zero f[0..n), keep the rest
    f, evals := TriangleSums(0, n, x, c, zeroed);
    PairsClosedForm(n);
  }
}
