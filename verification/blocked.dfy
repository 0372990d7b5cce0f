/**
 * The cache-blocked summation of kernel/kernel2.c.
 *
 * `[0, n)` is cut into blocks of `B` indices (the last one possibly
 * shorter). For each block in increasing order, the driver runs the
 * triangle walk inside the block (`kernel_sums_diag`) and then, for every
 * earlier block, a full rectangle walk between the two blocks
 * (`kernel_sums_offdiag`). The C code hands each call pointers into the
 * shared arrays (`x + i`, `c + i`, `f + i`); here each call takes the whole
 * sequences and the start index and length of its block(s) instead.
 *
 * `kernel_sums_offdiag` is modelled twice: `OffDiag` updates the earlier
 * block with the coefficient of the later block's point, as the symmetric
 * sum requires, and `OffDiagAsWritten` follows line 73 of the C code, which
 * indexes that coefficient with the earlier block's loop variable instead.
 * The driver uses `OffDiag`.
 */
module Blocked {
  import opened KernelEval
  import opened PairSums
  import opened Triangle

  /** The block length of the source (`#define B 10`). */
  const BlockSize: nat := 10

  /** The smaller of two naturals. */
  function Min(a: nat, b: nat): (r: nat)
  {
    if a < b then a else b
  }

  /** Index `p` lies in the block of `len` indices that starts at `s`. */
  predicate InBlock(p: nat, s: nat, len: nat)
  {
    s <= p < s + len
  }

  /**
   * Length of the block starting at `i` (`bi` in the driver): `B`, or what
   * is left of `[0, n)` when fewer than `B` indices remain.
   */
  function BlockLen(n: nat, B: nat, i: nat): (len: nat)
    requires B >= 1 && i < n
    ensures 1 <= len <= B && i + len <= n
    ensures len < B ==> i + len == n
    ensures i + len == Min(i + B, n)
  {
    if n - i < B then n - i else B
  }

  /** Consecutive multiples of `B` are `B` apart, so distinct ones are at least `B` apart. */
  lemma {:induction false} MulStep(a: nat, b: nat, B: nat)
    requires a < b
    ensures a * B + B <= b * B
    decreases b
  {
    assert b * B == (b - 1) * B + B;
    if a < b - 1 {
      MulStep(a, b - 1, B);
    }
  }

  /**
   * Block `kj` comes before block `ki`, whose start is within `[0, n]`: it
   * ends at or before block `ki` starts, and it is full.
   */
  lemma EarlierBlockFull(n: nat, B: nat, ki: nat, kj: nat)
    requires B >= 1 && kj < ki && ki * B <= n
    ensures kj * B + B <= ki * B
    ensures BlockLen(n, B, kj * B) == B
  {
    MulStep(kj, ki, B);
  }

  /** The driver's inner loop steps from block `kj` to the next, still before block `k`. */
  lemma NextEarlierBlock(n: nat, B: nat, i: nat, k: nat, j: nat, kj: nat)
    requires B >= 1 && i == k * B && i <= n && j == kj * B && kj <= k && j < i
    ensures kj < k && j + B <= i && BlockLen(n, B, j) == B
    ensures j + B == (kj + 1) * B
  {
    EarlierBlockFull(n, B, k, kj);
  }

  /** An index lies within `B` after at most one multiple of `B`. */
  lemma SameBlock(B: nat, p: nat, k1: nat, k2: nat)
    requires B >= 1 && k1 * B <= p < k1 * B + B && k2 * B <= p < k2 * B + B
    ensures k1 == k2
  {
    if k1 < k2 {
      MulStep(k1, k2, B);
    } else if k2 < k1 {
      MulStep(k2, k1, B);
    }
  }

  /**
   * The blocks partition `[0, n)`: index `p < n` lies in block `k` (the
   * one starting at `k * B`) exactly when `k` is `p / B`.
   */
  lemma BlockContaining(n: nat, B: nat, p: nat, k: nat)
    requires B >= 1 && p < n && k * B < n
    ensures k * B <= p < k * B + BlockLen(n, B, k * B) <==> k == p / B
  {
    var q: nat := p / B;
    assert q * B <= p < q * B + B;
    if k * B <= p < k * B + BlockLen(n, B, k * B) {
      SameBlock(B, p, k, q);
    }
  }

  /**
   * Row `p` of an off-diagonal block pair after its first `k` partners
   * `q` in `[sj, sj + k)`.
   */
  ghost predicate CrossRowDone(p: nat, sj: nat, k: nat, x: seq<FeatureVector>, c: seq<real>,
                               f0: seq<real>, f: seq<real>)
  {
    && p < |x| && p < |c| && p < |f0| && sj + k <= |x| && sj + k <= |c| && sj + k <= |f0| && |f| == |f0|
    && !(sj <= p < sj + k)
    && f[p] == f0[p] + RowSum(x, c, p, sj, sj + k)
    && (forall q {:trigger f[q]} :: sj <= q < sj + k ==> f[q] == f0[q] + Kernel(x[q], x[p]) * c[p])
    && (forall q {:trigger f[q]} :: 0 <= q < |f| && q != p && !(sj <= q < sj + k) ==> f[q] == f0[q])
  }

  /** One pair `(p, sj + k)` of `CrossRow`: both ends gain the other's weighted kernel value, and the row state advances by one. */
  lemma CrossRowStep(p: nat, sj: nat, k: nat, x: seq<FeatureVector>, c: seq<real>,
                     f0: seq<real>, f: seq<real>, kr: real)
    requires CrossRowDone(p, sj, k, x, c, f0, f)
    requires sj + k < |x| && sj + k < |c| && sj + k < |f0| && p != sj + k
    requires kr == Kernel(x[p], x[sj + k])
    ensures CrossRowDone(p, sj, k + 1, x, c, f0, f[p := f[p] + kr * c[sj + k]][sj + k := f[sj + k] + kr * c[p]])
  {
    KernelSymmetric(x[p], x[sj + k]);
  }

  /**
   * The inner loop of `kernel_sums_offdiag` for the point `p` of the later
   * block, corrected: one kernel evaluation per point `q` of the earlier
   * block `[sj, sj + nn)`, added to `f[p]` weighted by `c[q]` and to `f[q]`
   * weighted by `c[p]`.
   */
  method CrossRow(p: nat, sj: nat, nn: nat, x: seq<FeatureVector>, c: seq<real>, f0: seq<real>)
    returns (f: seq<real>, evals: seq<Eval>)
    requires p < |x| && p < |c| && p < |f0|
    requires sj + nn <= |x| && sj + nn <= |c| && sj + nn <= |f0|
    requires !(sj <= p < sj + nn)
    ensures |f| == |f0|
    ensures f[p] == f0[p] + RowSum(x, c, p, sj, sj + nn)
    ensures forall q {:trigger f[q]} :: sj <= q < sj + nn ==> f[q] == f0[q] + Kernel(x[q], x[p]) * c[p]
    ensures forall q {:trigger f[q]} :: 0 <= q < |f| && q != p && !(sj <= q < sj + nn) ==> f[q] == f0[q]
    ensures IsRowTrace(evals, p, sj, nn)
  {
    f := f0;
    evals := [];
    var k := 0;
    while k < nn
      invariant k <= nn
      invariant CrossRowDone(p, sj, k, x, c, f0, f)
      invariant IsRowTrace(evals, p, sj, k)
    {
      var r2 := FeatureDist2(x[p], x[sj + k]);
      var kr := Exp(-r2 / 2.0);
      CrossRowStep(p, sj, k, x, c, f0, f, kr);
      f := f[p := f[p] + kr * c[sj + k]];
      f := f[sj + k := f[sj + k] + kr * c[p]];
      evals := evals + [Eval(p, sj + k)];
      k := k + 1;
    }
  }

  /**
   * An off-diagonal block pair after the first `a` points of the later
   * block `[si, si + m)`: those points have the contributions of the whole
   * earlier block `[sj, sj + nn)`, every point of the earlier block has the
   * contributions of `x[si .. si + a)`, and nothing else has changed.
   */
  ghost predicate CrossDone(si: nat, a: nat, sj: nat, nn: nat, x: seq<FeatureVector>, c: seq<real>,
                            f0: seq<real>, f: seq<real>)
  {
    && si + a <= |x| && si + a <= |c| && si + a <= |f0|
    && sj + nn <= |x| && sj + nn <= |c| && sj + nn <= |f0| && |f| == |f0|
    && (forall p {:trigger f[p]} :: si <= p < si + a ==> f[p] == f0[p] + RowSum(x, c, p, sj, sj + nn))
    && (forall q {:trigger f[q]} :: sj <= q < sj + nn ==> f[q] == f0[q] + RowSum(x, c, q, si, si + a))
    && (forall p {:trigger f[p]} :: 0 <= p < |f| && !(si <= p < si + a) && !(sj <= p < sj + nn) ==> f[p] == f0[p])
  }

  /** Number of index pairs in an `a` by `b` rectangle, counted row by row. */
  function Rect(a: nat, b: nat): (count: nat)
  {
    if a == 0 then 0 else Rect(a - 1, b) + b
  }

  /** `Rect(a, b)` is the product `a * b`. */
  lemma {:induction false} RectIsProduct(a: nat, b: nat)
    ensures Rect(a, b) == a * b
  {
    if a > 0 {
      RectIsProduct(a - 1, b);
      assert a * b == (a - 1) * b + b;
    }
  }

  /** The evaluations in `evals` are exactly the pairs `(p, q)` of `[si, si + a) x [sj, sj + nn)`, each once. */
  ghost predicate CrossCounted(evals: seq<Eval>, si: nat, a: nat, sj: nat, nn: nat)
  {
    && |evals| == Rect(a, nn)
    && forall p: nat, q: nat ::
         multiset(evals)[Eval(p, q)] == (if si <= p < si + a && sj <= q < sj + nn then 1 else 0)
  }

  /** One row of `OffDiag`: adding row `si + a`'s effect to the first `a` rows' state gives the state after `a + 1` rows. */
  lemma CrossStep(si: nat, m: nat, a: nat, sj: nat, nn: nat, x: seq<FeatureVector>, c: seq<real>,
                  f0: seq<real>, f: seq<real>, g: seq<real>)
    requires CrossDone(si, a, sj, nn, x, c, f0, f)
    requires a < m && si + a < |x| && si + a < |c| && si + a < |f0|
    requires forall p :: InBlock(p, si, m) ==> !InBlock(p, sj, nn)
    requires |g| == |f|
    requires g[si + a] == f[si + a] + RowSum(x, c, si + a, sj, sj + nn)
    requires forall q {:trigger g[q]} :: sj <= q < sj + nn ==> g[q] == f[q] + Kernel(x[q], x[si + a]) * c[si + a]
    requires forall q {:trigger g[q]} :: 0 <= q < |g| && q != si + a && !(sj <= q < sj + nn) ==> g[q] == f[q]
    ensures CrossDone(si, a + 1, sj, nn, x, c, f0, g)
  {
    assert InBlock(si + a, si, m);
    forall p | si <= p < si + a
      ensures g[p] == f0[p] + RowSum(x, c, p, sj, sj + nn)
    {
      assert InBlock(p, si, m);
    }
    forall q | sj <= q < sj + nn
      ensures g[q] == f0[q] + RowSum(x, c, q, si, si + a + 1)
    {
      assert RowSum(x, c, q, si, si + a + 1) == RowSum(x, c, q, si, si + a) + Kernel(x[q], x[si + a]) * c[si + a];
    }
  }

  /** One row of `OffDiag`: appending row `si + a`'s trace extends the exactly-once count to the first `a + 1` rows of the rectangle. */
  lemma CrossCountedStep(evals: seq<Eval>, row: seq<Eval>, si: nat, a: nat, sj: nat, nn: nat)
    requires CrossCounted(evals, si, a, sj, nn)
    requires IsRowTrace(row, si + a, sj, nn)
    ensures CrossCounted(evals + row, si, a + 1, sj, nn)
  {
    var counts := multiset(evals + row);
    forall p: nat, q: nat
      ensures counts[Eval(p, q)] == (if si <= p < si + a + 1 && sj <= q < sj + nn then 1 else 0)
    {
      RowTraceCounts(row, si + a, sj, nn);
      assert counts[Eval(p, q)] == multiset(evals)[Eval(p, q)] + multiset(row)[Eval(p, q)];
    }
  }

  /** One pass of the outer loop of `OffDiag`: row `si + a` against the whole earlier block. */
  method OffDiagRow(si: nat, m: nat, a: nat, sj: nat, nn: nat, x: seq<FeatureVector>, c: seq<real>,
                    f0: seq<real>, f: seq<real>, evals: seq<Eval>)
    returns (g: seq<real>, evals': seq<Eval>)
    requires CrossDone(si, a, sj, nn, x, c, f0, f) && CrossCounted(evals, si, a, sj, nn)
    requires a < m && si + m <= |x| && si + m <= |c| && si + m <= |f0|
    requires forall p :: InBlock(p, si, m) ==> !InBlock(p, sj, nn)
    ensures CrossDone(si, a + 1, sj, nn, x, c, f0, g) && CrossCounted(evals', si, a + 1, sj, nn)
  {
    assert InBlock(si + a, si, m);
    var rowEvals;
    g, rowEvals := CrossRow(si + a, sj, nn, x, c, f);
    CrossStep(si, m, a, sj, nn, x, c, f0, f, g);
    CrossCountedStep(evals, rowEvals, si, a, sj, nn);
    evals' := evals + rowEvals;
  }

  /**
   * `kernel_sums_offdiag` with the corrected update: for the later block
   * `[si, si + m)` and the earlier, disjoint block `[sj, sj + nn)`, every
   * point of each block gains the contributions of every point of the
   * other, each pair evaluated exactly once.
   */
  method OffDiag(si: nat, m: nat, sj: nat, nn: nat, x: seq<FeatureVector>, c: seq<real>, f0: seq<real>)
    returns (f: seq<real>, evals: seq<Eval>)
    requires si + m <= |x| && si + m <= |c| && si + m <= |f0|
    requires sj + nn <= |x| && sj + nn <= |c| && sj + nn <= |f0|
    requires forall p :: InBlock(p, si, m) ==> !InBlock(p, sj, nn)
    ensures |f| == |f0|
    ensures forall p {:trigger f[p]} :: si <= p < si + m ==> f[p] == f0[p] + RowSum(x, c, p, sj, sj + nn)
    ensures forall q {:trigger f[q]} :: sj <= q < sj + nn ==> f[q] == f0[q] + RowSum(x, c, q, si, si + m)
    ensures forall p {:trigger f[p]} :: 0 <= p < |f| && !(si <= p < si + m) && !(sj <= p < sj + nn) ==> f[p] == f0[p]
    ensures |evals| == m * nn
    ensures forall p: nat, q: nat ::
      multiset(evals)[Eval(p, q)] == (if si <= p < si + m && sj <= q < sj + nn then 1 else 0)
  {
    f := f0;
    evals := [];
    var a := 0;
    assert forall q :: sj <= q < sj + nn ==> RowSum(x, c, q, si, si) == 0.0;
    while a < m
      invariant a <= m
      invariant CrossDone(si, a, sj, nn, x, c, f0, f)
      invariant CrossCounted(evals, si, a, sj, nn)
    {
      f, evals := OffDiagRow(si, m, a, sj, nn, x, c, f0, f, evals);
      a := a + 1;
    }
    RectIsProduct(m, nn);
  }

  /**
   * The sum of the kernel values between `x[q]` and each point of
   * `[lo, hi)`, without coefficients.
   */
  function KernelMass(x: seq<FeatureVector>, q: nat, lo: nat, hi: nat): (r: real)
    requires q < |x| && lo <= hi <= |x|
    decreases hi - lo
  {
    if lo == hi then 0.0 else KernelMass(x, q, lo, hi - 1) + Kernel(x[q], x[hi - 1])
  }

  /** Extending the range by one point adds that point's weighted kernel value. */
  lemma WeightedMassStep(x: seq<FeatureVector>, q: nat, lo: nat, hi: nat, w: real)
    requires q < |x| && lo <= hi < |x|
    ensures KernelMass(x, q, lo, hi + 1) * w == KernelMass(x, q, lo, hi) * w + Kernel(x[q], x[hi]) * w
  {
    var mass := KernelMass(x, q, lo, hi);
    var kq := Kernel(x[q], x[hi]);
    assert KernelMass(x, q, lo, hi + 1) == mass + kq;
    assert (mass + kq) * w == mass * w + kq * w;
  }

  /**
   * Row `si + a` of an off-diagonal block pair as line 73 of kernel2.c
   * writes it, after its first `k` partners: `f[sj + j]` has gained the
   * kernel value weighted by `c[si + j]`, the coefficient at the same
   * offset in the later block, instead of `c[si + a]`.
   */
  ghost predicate CrossRowAsWrittenDone(si: nat, a: nat, sj: nat, k: nat, x: seq<FeatureVector>, c: seq<real>,
                                        f0: seq<real>, f: seq<real>)
  {
    && si + a < |x| && si + a < |c| && si + a < |f0| && si + k <= |c|
    && sj + k <= |x| && sj + k <= |c| && sj + k <= |f0| && |f| == |f0|
    && !(sj <= si + a < sj + k)
    && f[si + a] == f0[si + a] + RowSum(x, c, si + a, sj, sj + k)
    && (forall q {:trigger f[q]} :: sj <= q < sj + k ==> f[q] == f0[q] + Kernel(x[q], x[si + a]) * c[si + (q - sj)])
    && (forall q {:trigger f[q]} :: 0 <= q < |f| && q != si + a && !(sj <= q < sj + k) ==> f[q] == f0[q])
  }

  lemma CrossRowAsWrittenStep(si: nat, a: nat, sj: nat, k: nat, x: seq<FeatureVector>, c: seq<real>,
                              f0: seq<real>, f: seq<real>, kr: real)
    requires CrossRowAsWrittenDone(si, a, sj, k, x, c, f0, f)
    requires sj + k < |x| && sj + k < |c| && sj + k < |f0| && si + k < |c| && si + a != sj + k
    requires kr == Kernel(x[si + a], x[sj + k])
    ensures CrossRowAsWrittenDone(si, a, sj, k + 1, x, c, f0,
                                  f[si + a := f[si + a] + kr * c[sj + k]][sj + k := f[sj + k] + kr * c[si + k]])
  {
    KernelSymmetric(x[si + a], x[sj + k]);
  }

  /**
   * The inner loop of `kernel_sums_offdiag` exactly as written: the update
   * of `f[sj + j]` reads `c[si + j]` (`cx[j]`) where `c[si + a]` (`cx[i]`)
   * belongs. The read is in bounds only when `si + nn <= |c|`.
   */
  method CrossRowAsWritten(si: nat, a: nat, sj: nat, nn: nat, x: seq<FeatureVector>, c: seq<real>, f0: seq<real>)
    returns (f: seq<real>)
    requires si + a < |x| && si + a < |c| && si + a < |f0| && si + nn <= |c|
    requires sj + nn <= |x| && sj + nn <= |c| && sj + nn <= |f0|
    requires !(sj <= si + a < sj + nn)
    ensures |f| == |f0|
    ensures f[si + a] == f0[si + a] + RowSum(x, c, si + a, sj, sj + nn)
    ensures forall q {:trigger f[q]} :: sj <= q < sj + nn ==> f[q] == f0[q] + Kernel(x[q], x[si + a]) * c[si + (q - sj)]
    ensures forall q {:trigger f[q]} :: 0 <= q < |f| && q != si + a && !(sj <= q < sj + nn) ==> f[q] == f0[q]
  {
    f := f0;
    var k := 0;
    while k < nn
      invariant k <= nn
      invariant CrossRowAsWrittenDone(si, a, sj, k, x, c, f0, f)
    {
      var r2 := FeatureDist2(x[si + a], x[sj + k]);
      var kr := Exp(-r2 / 2.0);
      CrossRowAsWrittenStep(si, a, sj, k, x, c, f0, f, kr);
      f := f[si + a := f[si + a] + kr * c[sj + k]];
      f := f[sj + k := f[sj + k] + kr * c[si + k]];
      k := k + 1;
    }
  }

  /**
   * An as-written off-diagonal block pair after the first `a` points of the
   * later block: those points are right, but each `f[q]` of the earlier
   * block has gained the kernel mass of `x[si .. si + a)` times the single
   * coefficient `c[si + (q - sj)]`.
   */
  ghost predicate CrossAsWrittenDone(si: nat, a: nat, sj: nat, nn: nat, x: seq<FeatureVector>, c: seq<real>,
                                     f0: seq<real>, f: seq<real>)
  {
    && si + a <= |x| && si + a <= |c| && si + a <= |f0| && si + nn <= |c|
    && sj + nn <= |x| && sj + nn <= |c| && sj + nn <= |f0| && |f| == |f0|
    && (forall p {:trigger f[p]} :: si <= p < si + a ==> f[p] == f0[p] + RowSum(x, c, p, sj, sj + nn))
    && (forall q {:trigger f[q]} :: sj <= q < sj + nn ==>
          f[q] == f0[q] + KernelMass(x, q, si, si + a) * c[si + (q - sj)])
    && (forall p {:trigger f[p]} :: 0 <= p < |f| && !(si <= p < si + a) && !(sj <= p < sj + nn) ==> f[p] == f0[p])
  }

  /** One row of `OffDiagAsWritten`: adding row `si + a`'s as-written effect gives the as-written state after `a + 1` rows. */
  lemma CrossAsWrittenStep(si: nat, m: nat, a: nat, sj: nat, nn: nat, x: seq<FeatureVector>, c: seq<real>,
                           f0: seq<real>, f: seq<real>, g: seq<real>)
    requires CrossAsWrittenDone(si, a, sj, nn, x, c, f0, f)
    requires a < m && si + a < |x| && si + a < |c| && si + a < |f0|
    requires forall p :: InBlock(p, si, m) ==> !InBlock(p, sj, nn)
    requires |g| == |f|
    requires g[si + a] == f[si + a] + RowSum(x, c, si + a, sj, sj + nn)
    requires forall q {:trigger g[q]} :: sj <= q < sj + nn ==> g[q] == f[q] + Kernel(x[q], x[si + a]) * c[si + (q - sj)]
    requires forall q {:trigger g[q]} :: 0 <= q < |g| && q != si + a && !(sj <= q < sj + nn) ==> g[q] == f[q]
    ensures CrossAsWrittenDone(si, a + 1, sj, nn, x, c, f0, g)
  {
    assert InBlock(si + a, si, m);
    forall p | si <= p < si + a
      ensures g[p] == f0[p] + RowSum(x, c, p, sj, sj + nn)
    {
      assert InBlock(p, si, m);
    }
    AsWrittenColumnStep(si, a, sj, nn, x, c, f0, f, g);
  }

  /** The earlier block's entries after one more row of an as-written off-diagonal call. */
  lemma AsWrittenColumnStep(si: nat, a: nat, sj: nat, nn: nat, x: seq<FeatureVector>, c: seq<real>,
                            f0: seq<real>, f: seq<real>, g: seq<real>)
    requires si + a < |x| && si + nn <= |c| && sj + nn <= |x| && sj + nn <= |f0| && |f| == |f0| && |g| == |f|
    requires forall q {:trigger f[q]} :: sj <= q < sj + nn ==>
      f[q] == f0[q] + KernelMass(x, q, si, si + a) * c[si + (q - sj)]
    requires forall q {:trigger g[q]} :: sj <= q < sj + nn ==> g[q] == f[q] + Kernel(x[q], x[si + a]) * c[si + (q - sj)]
    ensures forall q {:trigger g[q]} :: sj <= q < sj + nn ==>
      g[q] == f0[q] + KernelMass(x, q, si, si + a + 1) * c[si + (q - sj)]
  {
    forall q | sj <= q < sj + nn
      ensures g[q] == f0[q] + KernelMass(x, q, si, si + a + 1) * c[si + (q - sj)]
    {
      WeightedMassStep(x, q, si, si + a, c[si + (q - sj)]);
    }
  }

  /** One pass of the outer loop of `OffDiagAsWritten`. */
  method OffDiagAsWrittenRow(si: nat, m: nat, a: nat, sj: nat, nn: nat, x: seq<FeatureVector>, c: seq<real>,
                             f0: seq<real>, f: seq<real>)
    returns (g: seq<real>)
    requires CrossAsWrittenDone(si, a, sj, nn, x, c, f0, f)
    requires a < m && si + m <= |x| && si + m <= |c| && si + m <= |f0|
    requires forall p :: InBlock(p, si, m) ==> !InBlock(p, sj, nn)
    ensures CrossAsWrittenDone(si, a + 1, sj, nn, x, c, f0, g)
  {
    assert InBlock(si + a, si, m);
    g := CrossRowAsWritten(si, a, sj, nn, x, c, f);
    CrossAsWrittenStep(si, m, a, sj, nn, x, c, f0, f, g);
  }

  /**
   * `kernel_sums_offdiag` as written: the later block `[si, si + m)` gets
   * the right contributions, but each `f[q]` of the earlier block gains the
   * kernel mass of the later block times the one coefficient
   * `c[si + (q - sj)]`, instead of the kernel-weighted sum of the later
   * block's coefficients.
   */
  method OffDiagAsWritten(si: nat, m: nat, sj: nat, nn: nat, x: seq<FeatureVector>, c: seq<real>, f0: seq<real>)
    returns (f: seq<real>)
    requires si + m <= |x| && si + m <= |c| && si + m <= |f0| && si + nn <= |c|
    requires sj + nn <= |x| && sj + nn <= |c| && sj + nn <= |f0|
    requires forall p :: InBlock(p, si, m) ==> !InBlock(p, sj, nn)
    ensures |f| == |f0|
    ensures forall p {:trigger f[p]} :: si <= p < si + m ==> f[p] == f0[p] + RowSum(x, c, p, sj, sj + nn)
    ensures forall q {:trigger f[q]} :: sj <= q < sj + nn ==>
      f[q] == f0[q] + KernelMass(x, q, si, si + m) * c[si + (q - sj)]
    ensures forall p {:trigger f[p]} :: 0 <= p < |f| && !(si <= p < si + m) && !(sj <= p < sj + nn) ==> f[p] == f0[p]
  {
    f := f0;
    var a := 0;
    assert forall q :: sj <= q < sj + nn ==> KernelMass(x, q, si, si) == 0.0;
    while a < m
      invariant a <= m
      invariant CrossAsWrittenDone(si, a, sj, nn, x, c, f0, f)
    {
      f := OffDiagAsWrittenRow(si, m, a, sj, nn, x, c, f0, f);
      a := a + 1;
    }
  }

  /**
   * The misweighting on a call the driver makes for `n = 20`: block
   * `[10, 20)` against block `[0, 10)`, with all points equal (so every
   * kernel value is 1) and `c[10] = 1` the only nonzero coefficient. Point
   * 1 should gain `k(x_1, x_10) * c[10] = 1`; as written it gains the
   * kernel mass of `[10, 20)` times `c[11] = 0`.
   */
  method AsWrittenMisweights() returns (asWritten: real, intended: real)
    ensures asWritten == KernelMass(MisweightPoints, 1, 10, 20) * MisweightCoefficients[11]
    ensures intended == RowSum(MisweightPoints, MisweightCoefficients, 1, 10, 20)
    ensures asWritten == 0.0 && intended == 1.0
  {
    var x, c := MisweightPoints, MisweightCoefficients;
    var f0 := seq(20, _ => 0.0);
    var fa := OffDiagAsWritten(10, 10, 0, 10, x, c, f0);
    var fc, _ := OffDiag(10, 10, 0, 10, x, c, f0);
    asWritten, intended := fa[1], fc[1];
    MisweightFormulas();
  }

  /** The points of the misweighting example: twenty copies of the origin. */
  const MisweightPoints: seq<FeatureVector> := seq(20, _ => seq(D, _ => 0.0))

  /** The coefficients of the misweighting example: `c[10] = 1`, all others 0. */
  const MisweightCoefficients: seq<real> := seq(20, p => if p == 10 then 1.0 else 0.0)

  /**
   * On the misweighting example, the weight `OffDiagAsWritten` gives point
   * 1 is 0, while the row sum `OffDiag` gives it is 1.
   */
  lemma MisweightFormulas()
    ensures KernelMass(MisweightPoints, 1, 10, 20) * MisweightCoefficients[11] == 0.0
    ensures RowSum(MisweightPoints, MisweightCoefficients, 1, 10, 20) == 1.0
  {
    var x, c := MisweightPoints, MisweightCoefficients;
    RowSumSplit(x, c, 1, 10, 11, 20);
    RowSumOfZeroCoefficients(x, c, 1, 11, 20);
    KernelSelf(x[1]);
    assert x[10] == x[1];
  }

  /**
   * Line 73 reads `cx[j]` for every `j` below the earlier block's length,
   * that is `c[k * B + j]` for `j < B` when block `k` is paired with an
   * earlier block `kj`. Those reads stay inside `c[0 .. n)` exactly when
   * block `k` is full, so they run past the end of `c` whenever
   * `n % B != 0` and there is more than one block.
   */
  lemma AsWrittenReadInBounds(n: nat, B: nat, k: nat, kj: nat)
    requires B >= 1 && kj < k && k * B < n
    ensures k * B + BlockLen(n, B, kj * B) <= n <==> BlockLen(n, B, k * B) == B
  {
    EarlierBlockFull(n, B, k, kj);
  }

  /**
   * The driver's state inside block `[i, h)` once the earlier blocks
   * covering `[0, j)` have been paired with it. On top of the zeroed buffer
   * `z`, every point below `i` holds its own coefficient and the
   * contributions of `[0, i)`, and those below `j` also those of `[i, h)`;
   * every point of the block holds its coefficient and the contributions of
   * `[0, j)` and of `[i, h)`.
   */
  ghost predicate BlockRowDone(i: nat, h: nat, j: nat, x: seq<FeatureVector>, c: seq<real>,
                               z: seq<real>, f: seq<real>)
  {
    && j <= i <= h && h <= |x| && h <= |c| && h <= |z| && |f| == |z|
    && (forall p {:trigger f[p]} :: 0 <= p < j ==> f[p] == z[p] + c[p] + RowSum(x, c, p, 0, i) + RowSum(x, c, p, i, h))
    && (forall p {:trigger f[p]} :: j <= p < i ==> f[p] == z[p] + c[p] + RowSum(x, c, p, 0, i))
    && (forall p {:trigger f[p]} :: i <= p < h ==> f[p] == z[p] + c[p] + RowSum(x, c, p, 0, j) + RowSum(x, c, p, i, h))
    && (forall p {:trigger f[p]} :: h <= p < |f| ==> f[p] == z[p])
  }

  /**
   * The evaluations so far in block `[i, h)`: the pairs below `i`, the pairs
   * inside the block, and the pairs between the block and `[0, j)`, each once.
   */
  ghost predicate BlockCounted(evals: seq<Eval>, i: nat, h: nat, j: nat)
  {
    && i <= h
    && |evals| == Pairs(i) + Pairs(h - i) + (h - i) * j
    && forall a: nat, b: nat :: multiset(evals)[Eval(a, b)] ==
         (if b < a < i || i <= b < a < h || (i <= a < h && b < j) then 1 else 0)
  }

  /** The diagonal call of block `[i, h)` starts the block's state. */
  lemma DiagStep(i: nat, h: nat, x: seq<FeatureVector>, c: seq<real>, z: seq<real>, f: seq<real>, g: seq<real>)
    requires TriangleDone(0, i, x, c, z, f)
    requires i <= h <= |x| && h <= |c| && h <= |z|
    requires |g| == |f|
    requires forall p {:trigger g[p]} :: i <= p < h ==> g[p] == f[p] + c[p] + RowSum(x, c, p, i, h)
    requires forall p {:trigger g[p]} :: 0 <= p < |g| && !(i <= p < h) ==> g[p] == f[p]
    ensures BlockRowDone(i, h, 0, x, c, z, g)
  {
  }

  /** The diagonal call of the driver: appending the block's own pairs to those below `i` starts the block's count. */
  lemma DiagCountedStep(evals: seq<Eval>, diag: seq<Eval>, i: nat, h: nat)
    requires TriangleCounted(evals, 0, i) && i <= h
    requires |diag| == Pairs(h - i)
    requires forall a: nat, b: nat :: multiset(diag)[Eval(a, b)] == (if i <= b < a < h then 1 else 0)
    ensures BlockCounted(evals + diag, i, h, 0)
  {
    assert multiset(evals + diag) == multiset(evals) + multiset(diag);
  }

  /** Pairing block `[i, h)` with the earlier block `[j, j + bj)` advances the block's state. */
  lemma OffStep(i: nat, h: nat, j: nat, bj: nat, x: seq<FeatureVector>, c: seq<real>,
                z: seq<real>, f: seq<real>, g: seq<real>)
    requires BlockRowDone(i, h, j, x, c, z, f) && j + bj <= i
    requires |g| == |f|
    requires forall p {:trigger g[p]} :: i <= p < h ==> g[p] == f[p] + RowSum(x, c, p, j, j + bj)
    requires forall q {:trigger g[q]} :: j <= q < j + bj ==> g[q] == f[q] + RowSum(x, c, q, i, h)
    requires forall p {:trigger g[p]} :: 0 <= p < |g| && !(i <= p < h) && !(j <= p < j + bj) ==> g[p] == f[p]
    ensures BlockRowDone(i, h, j + bj, x, c, z, g)
  {
    forall p | i <= p < h
      ensures g[p] == z[p] + c[p] + RowSum(x, c, p, 0, j + bj) + RowSum(x, c, p, i, h)
    {
      RowSumSplit(x, c, p, 0, j, j + bj);
    }
  }

  /** One off-diagonal call of the driver: appending the cross pairs with `[j, j + bj)` moves the block's count from `j` to `j + bj`. */
  lemma OffCountedStep(evals: seq<Eval>, off: seq<Eval>, i: nat, h: nat, j: nat, bj: nat)
    requires BlockCounted(evals, i, h, j) && j + bj <= i
    requires |off| == (h - i) * bj
    requires forall a: nat, b: nat :: multiset(off)[Eval(a, b)] == (if i <= a < h && j <= b < j + bj then 1 else 0)
    ensures BlockCounted(evals + off, i, h, j + bj)
  {
    assert multiset(evals + off) == multiset(evals) + multiset(off);
    assert (h - i) * j + (h - i) * bj == (h - i) * (j + bj);
  }

  /** Once every earlier block has been paired with it, block `[i, h)` extends the finished prefix to `[0, h)`. */
  lemma BlockClose(i: nat, h: nat, x: seq<FeatureVector>, c: seq<real>, z: seq<real>, f: seq<real>)
    requires BlockRowDone(i, h, i, x, c, z, f)
    ensures TriangleDone(0, h, x, c, z, f)
  {
    forall p | 0 <= p < h
      ensures f[p] == z[p] + c[p] + RowSum(x, c, p, 0, h)
    {
      RowSumSplit(x, c, p, 0, i, h);
    }
  }

  /** The end of the driver's inner loop: the block's count over all earlier blocks is the count of the pairs below `h`. */
  lemma BlockCountedClose(evals: seq<Eval>, i: nat, h: nat)
    requires BlockCounted(evals, i, h, i)
    ensures TriangleCounted(evals, 0, h)
  {
    PairsOfUnion(i, h - i);
    assert (h - i) * i == i * (h - i);
    forall a: nat, b: nat
      ensures multiset(evals)[Eval(a, b)] == (if 0 <= b < a < h then 1 else 0)
    {
      assert (b < a < i || i <= b < a < h || (i <= a < h && b < i)) == (b < a < h);
    }
  }

  /** The diagonal call of the driver: block `[i, h)` summed within itself. */
  method SumWithinBlock(i: nat, h: nat, x: seq<FeatureVector>, c: seq<real>,
                        z: seq<real>, f: seq<real>, evals: seq<Eval>)
    returns (g: seq<real>, evals': seq<Eval>)
    requires i <= h <= |x| && h <= |c| && h <= |z|
    requires TriangleDone(0, i, x, c, z, f) && TriangleCounted(evals, 0, i)
    ensures BlockRowDone(i, h, 0, x, c, z, g) && BlockCounted(evals', i, h, 0)
  {
    var diag;
    g, diag := TriangleSums(i, h - i, x, c, f);
    DiagStep(i, h, x, c, z, f, g);
    DiagCountedStep(evals, diag, i, h);
    evals' := evals + diag;
  }

  /** One pass of the driver's inner loop: block `[i, h)` against the earlier block `[j, j + bj)`. */
  method PairWithEarlier(i: nat, h: nat, j: nat, bj: nat, x: seq<FeatureVector>, c: seq<real>,
                         z: seq<real>, f: seq<real>, evals: seq<Eval>)
    returns (g: seq<real>, evals': seq<Eval>)
    requires BlockRowDone(i, h, j, x, c, z, f) && BlockCounted(evals, i, h, j) && j + bj <= i
    ensures BlockRowDone(i, h, j + bj, x, c, z, g) && BlockCounted(evals', i, h, j + bj)
  {
    var off;
    g, off := OffDiag(i, h - i, j, bj, x, c, f);
    OffStep(i, h, j, bj, x, c, z, f, g);
    OffCountedStep(evals, off, i, h, j, bj);
    evals' := evals + off;
  }

  /**
   * The driver's inner loop for block `[i, h)` (block `k`, so `i = k * B`):
   * pair it with each earlier block in turn, then the finished prefix
   * extends to `[0, h)`.
   */
  method PairWithAllEarlier(n: nat, B: nat, i: nat, ghost k: nat, h: nat, x: seq<FeatureVector>, c: seq<real>,
                            z: seq<real>, f: seq<real>, evals: seq<Eval>)
    returns (g: seq<real>, evals': seq<Eval>)
    requires B >= 1 && i == k * B && i <= n
    requires BlockRowDone(i, h, 0, x, c, z, f) && BlockCounted(evals, i, h, 0)
    ensures TriangleDone(0, h, x, c, z, g) && TriangleCounted(evals', 0, h)
  {
    g, evals' := f, evals;
    var j := 0;
    ghost var kj := 0;
    while j < i
      invariant j == kj * B && kj <= k && j <= i
      invariant BlockRowDone(i, h, j, x, c, z, g) && BlockCounted(evals', i, h, j)
    {
      var bj := BlockLen(n, B, j);
      NextEarlierBlock(n, B, i, k, j, kj);
      g, evals' := PairWithEarlier(i, h, j, bj, x, c, z, g, evals');
      j, kj := j + B, kj + 1;
    }
    BlockClose(i, h, x, c, z, g);
    BlockCountedClose(evals', i, h);
  }

  /**
   * One pass of the driver's outer loop: the block starting at `i` (block
   * `k`), summed within itself and then paired with each earlier block.
   */
  method SumBlock(n: nat, B: nat, i: nat, ghost k: nat, x: seq<FeatureVector>, c: seq<real>,
                  z: seq<real>, f: seq<real>, evals: seq<Eval>)
    returns (g: seq<real>, evals': seq<Eval>)
    requires B >= 1 && i == k * B && i < n && n <= |x| && n <= |c| && n <= |z|
    requires TriangleDone(0, i, x, c, z, f) && TriangleCounted(evals, 0, i)
    ensures TriangleDone(0, Min(i + B, n), x, c, z, g) && TriangleCounted(evals', 0, Min(i + B, n))
  {
    var bi := BlockLen(n, B, i);
    g, evals' := SumWithinBlock(i, i + bi, x, c, z, f, evals);
    g, evals' := PairWithAllEarlier(n, B, i, k, i + bi, x, c, z, g, evals');
  }

  /**
   * `kernel_sums` of kernel2.c for any block length `B >= 1`: zero
   * `f[0..n)`, then for each block in turn its diagonal call and its
   * off-diagonal calls against every earlier block, with the corrected
   * off-diagonal update. The result is the same as the direct summation's,
   * every pair is evaluated exactly once, and the buffer past `n` is left
   * alone.
   */
  method KernelSumsWithBlock(n: nat, x: seq<FeatureVector>, c: seq<real>, f0: seq<real>, B: nat)
    returns (f: seq<real>, evals: seq<Eval>)
    requires B >= 1 && n <= |x| && n <= |c| && n <= |f0|
    ensures |f| == |f0|
    ensures forall p :: 0 <= p < n ==> f[p] == KernelSumAt(x, c, n, p)
    ensures forall p :: n <= p < |f| ==> f[p] == f0[p]
    ensures forall a: nat, b: nat :: multiset(evals)[Eval(a, b)] == (if b < a < n then 1 else 0)
    ensures |evals| == n * (n - 1) / 2
  {
    var z := seq(n, _ => 0.0) + f0[n..];
    f, evals := z, [];
    var i := 0;
    ghost var k := 0;
    while i < n
      invariant i == k * B
      invariant TriangleDone(0, Min(i, n), x, c, z, f) && TriangleCounted(evals, 0, Min(i, n))
    {
      f, evals := SumBlock(n, B, i, k, x, c, z, f, evals);
      assert (k + 1) * B == k * B + B;
      i, k := i + B, k + 1;
    }
    PairsClosedForm(n);
  }

  /** `kernel_sums` of kernel2.c with its block length `B = 10` and the corrected off-diagonal update. */
  method KernelSums(n: nat, x: seq<FeatureVector>, c: seq<real>, f0: seq<real>)
    returns (f: seq<real>, evals: seq<Eval>)
    requires n <= |x| && n <= |c| && n <= |f0|
    ensures |f| == |f0|
    ensures forall p :: 0 <= p < n ==> f[p] == KernelSumAt(x, c, n, p)
    ensures forall p :: n <= p < |f| ==> f[p] == f0[p]
    ensures forall a: nat, b: nat :: multiset(evals)[Eval(a, b)] == (if b < a < n then 1 else 0)
    ensures |evals| == n * (n - 1) / 2
  {
    f, evals := KernelSumsWithBlock(n, x, c, f0, BlockSize);
  }
}
