/**
 * The two summations of the repository side by side: kernel/kernel1.c's
 * direct walk and kernel/kernel2.c's blocked walk (with the corrected
 * off-diagonal update) leave the same buffer and evaluate the kernel on the
 * same pairs, whatever the block length.
 */
module Equivalence {
  import opened PairSums
  import opened KernelEval
  import Direct
  import Blocked

  /**
   * Runs both summations on the same input. Their buffers are equal, and
   * their traces hold the same pairs the same number of times; only the
   * order of the evaluations differs.
   */
  method BlockedAgreesWithDirect(n: nat, x: seq<FeatureVector>, c: seq<real>, f0: seq<real>, B: nat)
    returns (direct: seq<real>, blocked: seq<real>, directEvals: seq<Eval>, blockedEvals: seq<Eval>)
    requires B >= 1 && n <= |x| && n <= |c| && n <= |f0|
    ensures direct == blocked
    ensures multiset(directEvals) == multiset(blockedEvals)
  {
    direct, directEvals := Direct.KernelSums(n, x, c, f0);
    blocked, blockedEvals := Blocked.KernelSumsWithBlock(n, x, c, f0, B);
    assert forall p :: 0 <= p < |direct| ==> direct[p] == blocked[p];
    forall e: Eval
      ensures multiset(directEvals)[e] == multiset(blockedEvals)[e]
    {
      assert e == Eval(e.i, e.j);
    }
  }

  /**
   * The direct summation zeroes `f[0..n)` before accumulating, so two
   * buffers that differ in their prior contents end up equal there, and
   * still differ only where they differed past `n`.
   */
  method PriorContentsIrrelevant(n: nat, x: seq<FeatureVector>, c: seq<real>, f1: seq<real>, f2: seq<real>)
    returns (r1: seq<real>, r2: seq<real>)
    requires n <= |x| && n <= |c| && n <= |f1| && |f1| == |f2|
    ensures |r1| == |f1| && |r2| == |f2|
    ensures r1[..n] == r2[..n]
    ensures r1[n..] == f1[n..] && r2[n..] == f2[n..]
  {
    var evals1, evals2;
    r1, evals1 := Direct.KernelSums(n, x, c, f1);
    r2, evals2 := Direct.KernelSums(n, x, c, f2);
    assert forall p :: 0 <= p < n ==> r1[p] == r2[p];
  }
}
