# Kernel sums: direct and cache-blocked

A Dafny model of the two kernel-summation routines in `kernel/kernel1.c` and
`kernel/kernel2.c`. Given points `x[0..n)`, each a feature vector of `D = 100`
reals, and coefficients `c[0..n)`, both routines are meant to fill the buffer `f` with

    f[p] = c[p] + sum over q < n, q != p, of k(x_p, x_q) * c[q]
    k(a, b) = exp(-|a - b|^2 / 2)

Both routines evaluate the kernel only once on each unordered pair. Each
kernel value `k(x_i, x_j)` with `j < i` is meant to go to both `f[i]`
(weighted by `c[j]`) and `f[j]` (weighted by `c[i]`).

kernel/kernel1.c does compute this sum. kernel/kernel2.c does not. Its line 73 weights the earlier block's update by `cx[j]` instead of `cx[i]` (see Findings). The model states that as-written update and its effect. It models the blocked driver with the corrected update.

- `kernel1.c` walks the strict lower triangle directly.
- `kernel2.c` cuts `[0, n)` into blocks of `B = 10` indices. Only the last block can be shorter. For each block it runs the triangle walk inside the block (`kernel_sums_diag`). It then runs a full rectangle walk against every earlier block (`kernel_sums_offdiag`).

Modules:

- `KernelEval` (kernel_eval.dfy): `feature_dist2` as a loop over the 100 components, and the kernel built on it.
- `PairSums` (pair_sums.dfy): the functional specification.
  - `RowSum` and `KernelSumAt` are the sum above, written as recursive real sums.
  - `IsRowTrace` describes the evaluations of one row.
  - `Pairs` counts the pairs.
- `Triangle` (triangle.dfy): the lower-triangle walk over a range `[s, s + m)`.
  - This is the body of kernel1's `kernel_sums` after zeroing.
  - It is also the whole of kernel2's `kernel_sums_diag`.
- `Direct` (direct.dfy): kernel1's `kernel_sums`.
- `Blocked` (blocked.dfy): kernel2's block arithmetic, `kernel_sums_offdiag` both as written and corrected, and the blocked driver.
- `Equivalence` (equivalence.dfy): the blocked driver against the direct one.

Modelling choices:

- The output buffer is a value. Each routine takes the buffer's prior contents `f0` and returns the new buffer `f`.
- The C code passes block sub-arrays as pointers (`x + i`, `c + i`, `f + i`). The model passes the whole sequences together with the block's start index and length.
- The routines of the direct walk, the corrected off-diagonal walk and the blocked driver also return `evals`, the list of index pairs on which they evaluated the kernel, in order. "Each pair exactly once" is stated on it as a multiset count. The as-written off-diagonal routines (`Blocked.CrossRowAsWritten`, `Blocked.OffDiagAsWrittenRow`, `Blocked.OffDiagAsWritten`) return only the buffer: they evaluate the same pairs as the corrected ones and differ only in the weight of one update.

## Model

| member | source | states |
|---|---|---|
| KernelEval.FeatureDist2 | kernel/kernel1.c:30-39 | the loop returns the sum of squared component differences over all 100 components; the value is non-negative and does not change when the two vectors are swapped |
| KernelEval.Dist2NonNegative | kernel/kernel1.c:33-38 | the squared distance is never negative |
| KernelEval.Dist2Symmetric | kernel/kernel1.c:33-38 | the squared distance from x to y equals that from y to x |
| KernelEval.Dist2Self | kernel/kernel1.c:33-38 | a vector's squared distance to itself is zero |
| KernelEval.ExpSeriesAtZero | kernel/kernel1.c:53 | the exponential stand-in is 1 at 0, for every truncation that keeps the constant term |
| KernelEval.KernelSymmetric | kernel/kernel1.c:52-55 | k(a, b) = k(b, a), which is why one kernel value can serve both `f[i]` and `f[j]` |
| KernelEval.KernelSelf | kernel/kernel1.c:42 | k(a, a) = 1: the kernel matrix has a unit diagonal |
| PairSums.UnitDiagonal | kernel/kernel1.c:42 | `c[p]` plus the off-diagonal sum equals the full matrix-vector row `sum over all q of k(x_p, x_q) c[q]`, the formula in the source comment |
| PairSums.FullRowSumSplitsDiagonal | kernel/kernel1.c:42 | the full row sum is the off-diagonal sum plus the diagonal term `k(x_p, x_p) c[p]` |
| PairSums.RowSumSplit | kernel/kernel2.c:86-92 | a row sum over `[lo, hi)` is the sum of its parts over `[lo, mid)` and `[mid, hi)`; this is what lets blocks be summed separately |
| PairSums.ZeroCoefficients | kernel/kernel1.c:49-55 | when every coefficient is zero, every required output is zero |
| PairSums.RowSumOfZeroCoefficients | kernel/kernel1.c:54-55 | points whose coefficients are zero contribute nothing to a row |
| PairSums.SinglePoint | kernel/kernel1.c:48-50 | with one point the output is its own coefficient |
| PairSums.SinglePair | kernel/kernel1.c:49-56 | with two points each output is its coefficient plus the shared kernel value times the other's coefficient |
| PairSums.RowTraceCounts | kernel/kernel1.c:51-52 | one row of the walk evaluates each pair `(i, j)` of its range exactly once and no other pair |
| PairSums.PairsClosedForm | kernel/kernel1.c:49-51 | the number of pairs `j < i < n` is `n(n-1)/2` |
| PairSums.PairsOfUnion | kernel/kernel2.c:86-91 | the pairs among `a + b` points are those among the first `a`, those among the last `b`, and the `a * b` pairs across |
| Triangle.RowStep | kernel/kernel1.c:52-55 | one pair's updates give each end the other's coefficient times the shared kernel value, and leave the rest of the buffer alone |
| Triangle.TriangleRow | kernel/kernel1.c:50-56 | row `i` adds to `f[i]` the contributions of every earlier point, adds to each earlier `f[j]` the contribution of `x[i]`, changes nothing else, and evaluates `(i, j)` once for each `j < i` in increasing order |
| Triangle.TriangleStep | kernel/kernel1.c:49-57 | the outer loop keeps its invariant: after `i` rows every `f[p]` with `p < i` holds `c[p]` plus the contributions of the first `i` points, and the rest is untouched |
| Triangle.TriangleCountedStep | kernel/kernel1.c:49-52 | after `i + 1` rows the evaluations are exactly the pairs `b < a <= i`, each once, `Pairs(i + 1)` in total |
| Triangle.TriangleSums | kernel/kernel2.c:43-57 | `kernel_sums_diag` adds, without overwriting, `c[p]` and the contributions of every other point of its range to each `f[p]` of the range; it leaves the buffer outside the range alone and evaluates every pair of the range exactly once |
| Direct.KernelSums | kernel/kernel1.c:43-58 | every `f[p]` with `p < n` ends equal to the specification `KernelSumAt`, whatever the buffer held before; `f[n..]` is untouched; every pair `j < i < n` is evaluated exactly once, `n(n-1)/2` evaluations in all |
| Equivalence.PriorContentsIrrelevant | kernel/kernel1.c:48 | because of the zeroing, two runs on buffers with different prior contents agree on `f[0..n)` and keep their own contents past `n` |
| Blocked.BlockLen | kernel/kernel2.c:87 | the block length is between 1 and `B`, the block ends within `n`, and it is shorter than `B` only when it is the last block |
| Blocked.EarlierBlockFull | kernel/kernel2.c:89-90 | a block that starts before another block start ends before that block and is full (`bj == B`) |
| Blocked.NextEarlierBlock | kernel/kernel2.c:89-90 | the inner loop's next block start is still a multiple of `B` and still at or before `i` |
| Blocked.SameBlock | kernel/kernel2.c:86 | an index lies in at most one of the ranges `[kB, kB + B)` |
| Blocked.BlockContaining | kernel/kernel2.c:86-87 | the blocks partition `[0, n)`: index `p` lies in block `k` exactly when `k = p / B` |
| Blocked.CrossRow | kernel/kernel2.c:68-74 | the corrected inner loop adds to `f[p]` the contributions of the whole earlier block, adds to each `f[q]` of that block the contribution of `x[p]` weighted by `c[p]`, changes nothing else, and evaluates `(p, q)` once per `q` in order |
| Blocked.OffDiag | kernel/kernel2.c:60-76 | with the update corrected to `cx[i]`, each point of either block gains the contributions of every point of the other block; nothing else changes; each of the `m * n` cross pairs is evaluated exactly once |
| Blocked.RectIsProduct | kernel/kernel2.c:68-69 | a rectangle walk of `m` rows of `n` evaluations makes `m * n` evaluations |
| Blocked.CrossRowAsWritten | kernel/kernel2.c:68-74 | as written, the inner loop weights the update of the earlier block's `j`-th point by `c[si + j]`, not by the current point's coefficient |
| Blocked.OffDiagAsWritten | kernel/kernel2.c:60-76 | as written, the later block is updated correctly, but each `f[q]` of the earlier block gains the later block's total kernel mass times the single coefficient `c[si + (q - sj)]` |
| Blocked.OffDiagAsWrittenRow | kernel/kernel2.c:68-75 | one pass of the as-written outer loop: after row `si + a`, the later block's first `a + 1` points hold their correct cross contributions, and each `f[q]` of the earlier block has gained the kernel mass of `x[si .. si + a]` times the single coefficient `c[si + (q - sj)]`; nothing else changes |
| Blocked.AsWrittenMisweights | kernel/kernel2.c:73 | for a call the driver makes at `n = 20`, the as-written update gives point 1 the weight that `OffDiagAsWritten`'s contract states, 0, where `OffDiag`'s contract gives 1 |
| Blocked.MisweightFormulas | kernel/kernel2.c:73 | on that input the two contract formulas differ: the later block's kernel mass times `c[11]` is 0, and the row sum over `[10, 20)` is 1 |
| Blocked.AsWrittenReadInBounds | kernel/kernel2.c:86-91 | the as-written reads of `c[i + j]` for `j < bj` stay below `n` exactly when block `i` is full; they overrun whenever the last block is short and follows another block |
| Blocked.OffDiagRow | kernel/kernel2.c:68-75 | one pass of the corrected outer loop: row `si + a` against the whole earlier block extends the state in which every point of the first `a` rows and of the earlier block has its cross contributions, and the evaluated pairs to exactly the first `a + 1` rows of the rectangle, each once |
| Blocked.SumWithinBlock | kernel/kernel2.c:87-88 | the diagonal call on block `[i, h)`, after a finished prefix `[0, i)`: the prefix stays finished, each point of the block holds its coefficient plus the contributions from inside the block, and the evaluated pairs are those below `i` plus those inside the block, each once |
| Blocked.PairWithEarlier | kernel/kernel2.c:90-91 | the off-diagonal call of block `[i, h)` with the earlier block `[j, j + bj)`: both sides gain the cross contributions, the covered prefix of earlier blocks moves from `j` to `j + bj`, and the cross pairs are added to the evaluated pairs, each once |
| Blocked.DiagStep | kernel/kernel2.c:88 | the diagonal call starts block `[i, h)`: its points hold their coefficient and the contributions from inside the block |
| Blocked.OffStep | kernel/kernel2.c:91 | pairing the block with an earlier block `[j, j + bj)` adds those cross contributions on both sides and extends the covered prefix to `j + bj` |
| Blocked.BlockClose | kernel/kernel2.c:89-92 | once all earlier blocks are paired with block `[i, h)`, every `f[p]` with `p < h` holds the full sum over `[0, h)` |
| Blocked.BlockCountedClose | kernel/kernel2.c:86-92 | the evaluations so far are then exactly the pairs below `h`, `Pairs(h)` in number |
| Blocked.PairWithAllEarlier | kernel/kernel2.c:89-92 | the inner loop pairs block `[i, h)` with every earlier block and leaves the finished prefix `[0, h)` |
| Blocked.SumBlock | kernel/kernel2.c:86-92 | one outer iteration extends the finished prefix from `i` to `min(i + B, n)` and the evaluated pairs from those below `i` to those below it |
| Blocked.KernelSumsWithBlock | kernel/kernel2.c:79-94 | for every `B >= 1`, with the corrected off-diagonal update, every `f[p]` with `p < n` ends equal to `KernelSumAt`, `f[n..]` is untouched, and every pair is evaluated exactly once, `n(n-1)/2` evaluations in all |
| Blocked.KernelSums | kernel/kernel2.c:79-94 | the same with the source's block length `B = 10` |
| Equivalence.BlockedAgreesWithDirect | kernel/kernel2.c:79-94 | for every `B >= 1` the corrected blocked driver leaves exactly the buffer the direct one leaves, and evaluates the same pairs the same number of times |

## Left out

- Floating point. All arithmetic is over `real`, so sums are exact. The direct and blocked results are therefore equal exactly; in C they agree only up to rounding, because the summation order differs.
- `exp` from the C math library. Dafny's `real` type has no exponential, so `KernelEval.Exp` is the 16-term Taylor polynomial of `e^r`, used only as a stand-in. The model uses two facts about the kernel: it is symmetric, which follows from `feature_dist2` alone, and `exp(0) = 1` (`KernelSelf`). No other property of `exp` is stated or used.
- KernelEval.Dist2Self: states only "zero when the vectors are equal". The converse, "zero only when they are equal", is not proved.
- C `int` width. `n`, `i`, `j` and the block length are unbounded naturals. Negative `n` and overflow of `i += B` near `INT_MAX` are not modelled.
- Buffer lengths. The C functions take raw pointers and check nothing. The model requires `x`, `c` and `f` to hold at least `n` entries, as the callers allocate them.
- `alignas(32)` layout. `restrict` is modelled only as the requirement that the two blocks of an off-diagonal call do not overlap.
- OpenMP is included but not used by the routines.
- Benchmark program. `main`, `fill_dvec`, `fill_fvecs`, `drand48`, `aligned_alloc`, `malloc`, `free`, `omp_get_wtime`, `printf` and the checksum loop are I/O and timing plumbing.
- `kernel/kernel2.c:30-39` repeats `feature_dist2` from `kernel/kernel1.c:30-39` token for token. It is modelled once.
- The as-written blocked driver is not modelled as a whole. The as-written off-diagonal call is modelled (`Blocked.OffDiagAsWritten`) and exhibited on a call the driver makes. The driver itself is modelled with the corrected call.
- Argument checks. The C functions check neither the buffer lengths nor `B`. The model states both as preconditions: buffers of at least `n` entries, and `B >= 1`.
- The off-diagonal update. kernel/kernel1.c:55 adds `kr * c[i]` to `f[j]`; kernel/kernel2.c:73 adds `kr * cx[j]` instead. `Blocked.OffDiagAsWritten` follows line 73, and `Blocked.OffDiag`, which the driver uses, has the symmetric update (see Findings).

## Findings

| source | as written | input that shows it | evidently intended | confidence | as-written member | corrected member |
|---|---|---|---|---|---|---|
| kernel/kernel2.c:73 | `fy[j] += kr * cx[j]` weights the earlier block's point by the coefficient at the same offset in the later block | n = 20, B = 10, all points equal, `c[10] = 1` and all other coefficients 0: the call for blocks `[10, 20)` and `[0, 10)` leaves `f[1]` at 0 instead of 1 | `fy[j] += kr * cx[i]`, the symmetric update of kernel/kernel1.c:55 | high; not executed | Blocked.AsWrittenMisweights | Blocked.OffDiag |
| kernel/kernel2.c:73 | the same line reads `cx[j]` for every `j < bj`, but `cx` has only `bi` valid entries from the later block onward | n = 15, B = 10: the call for blocks `[10, 15)` and `[0, 10)` reads `c[10..20)`, past the last valid index 14 | read only `cx[i]` with `i < bi` | high; not executed | Blocked.AsWrittenReadInBounds | Blocked.KernelSumsWithBlock |
