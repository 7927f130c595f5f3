# Mixed-radix FFT plan (liquid-dsp `fft_mixed_radix.c`) in Dafny

This project models the Cooley-Tukey mixed-radix transform of liquid-dsp:
plan creation for a size N (search for the smallest divisor Q of N, P = N/Q,
scratch arrays of length max(P, Q), a working copy of the input, two child
plans of sizes P and Q, an N-entry twiddle table) and plan execution (copy
the input, then for each of the Q columns gather at stride Q, run the
P-point child, scatter back times `twiddle[i*k]`; then for each of the P rows
gather, run the Q-point child and write transposed to `y[k*P + i]`).

Layout:

- `index_maps.dfy` (`IndexMaps`): the row-major map `Q*k + i` and the
  transpose map `k*P + i` as `Flatten`/`Unflatten`, their round trips and
  the twiddle-index bound.
- `factorization.dfy` (`Factorization`): the divisor search as a loop,
  proved against `IsSmallestDivisor`/`IsPrime`.
- `pipeline.dfy` (`Pipeline`): a pure specification of one execution,
  `MixedRadix = Phase2(Phase1(x))`, over a generic element type with an
  abstract product `mul` and children that are length-preserving functions
  on sequences.
- `plan.dfy` (`MixedRadixPlan`): the plan as a class whose array fields
  are the working buffer `buf`, the scratch arrays `t0`/`t1`, the twiddle
  table and the caller's `input`/`output`; the constructor fills the
  twiddle table with a loop, `Execute` runs the two passes with loops and is
  proved to leave `MixedRadix` of the entry input in `output`.
  `CreatePlan` is the creation entry point, returning an error result.
- `sums.dfy` (`Sums`), `modular.dfy` (`Modular`), `cooley_tukey.dfy`
  (`CooleyTukey`): the promise of the file header, that the plan computes
  the N-point DFT. Complex numbers are replaced by the integers modulo M,
  the root of unity by any w with w^N = 1 modulo M. With a twiddle table of
  powers of w and exact P- and Q-point DFT children (roots w^Q and w^P), the
  output of `Execute` is the N-point DFT of the input.

Sizes 0 and 1 take the same no-divisor path as prime sizes: there is no
separate invalid-size error. Creating a child plan cannot fail: the
factory is total.

## Model

| member | source | states |
|---|---|---|
| Factorization.FindFactor | src/fft/src/fft_mixed_radix.c:60-68 | the loop returns 0 exactly when N <= 1 or N is prime, and otherwise the smallest divisor Q of N with 2 <= Q < N |
| Factorization.SmallestDivisorIsPrime | src/fft/src/fft_mixed_radix.c:60-68 | the smallest divisor found is prime ("first 'prime' factor") |
| Factorization.FactorPair | src/fft/src/fft_mixed_radix.c:74-77 | with Q the smallest divisor, P = N/Q satisfies P*Q = N and 2 <= Q <= P < N |
| MixedRadixPlan.CreatePlan | src/fft/src/fft_mixed_radix.c:41-113 | creation fails with NotDecomposable(N) exactly when N <= 1 or N is prime; otherwise it returns a valid plan with P*Q = N, Q the smallest divisor, fresh buffers, the borrowed input/output, the given direction and product, children factory(P, direction) and factory(Q, direction), and the twiddle table of the direction |
| MixedRadixPlan.Plan.constructor | src/fft/src/fft_mixed_radix.c:74-111 | sets P = N/Q, allocates t0/t1 of length max(P, Q) and the N-entry buffer, takes the P- and Q-point children from the factory with the plan's direction, and fills twiddle[i] = expi(d, i, N) with d = -1 forward, +1 reverse |
| MixedRadixPlan.ScratchLength | src/fft/src/fft_mixed_radix.c:80 | the scratch length is at least P and at least Q (big enough for both passes) and is one of them |
| MixedRadixPlan.ScratchLengthIsP | src/fft/src/fft_mixed_radix.c:80 | with Q the smallest divisor the scratch length max(P, Q) is always P |
| IndexMaps.FlattenRoundTrip | src/fft/src/fft_mixed_radix.c:161-169 | cell (k, i) of a P-by-Q grid maps below P*Q and Unflatten recovers (k, i) |
| IndexMaps.UnflattenRoundTrip | src/fft/src/fft_mixed_radix.c:161-169 | every position below P*Q is the image of the in-range cell Unflatten gives |
| IndexMaps.GridStep | src/fft/src/fft_mixed_radix.c:168-169 | the phase-one index Q*k + i lies below N, in column i (its remainder by Q is i), and the next row of the column is Q further on |
| IndexMaps.ColumnIndexBijection | src/fft/src/fft_mixed_radix.c:159-169 | (k, i) with k < P, i < Q maps to Q*k + i bijectively onto [0, N) |
| IndexMaps.TransposeIndexBijection | src/fft/src/fft_mixed_radix.c:182-192 | (k, i) with k < Q, i < P maps to k*P + i bijectively onto [0, N) |
| IndexMaps.TwiddleIndexInRange | src/fft/src/fft_mixed_radix.c:168-169 | the twiddle index i*k for i < Q, k < P is at most (Q-1)*(P-1) and below N |
| Pipeline.Phase1At | src/fft/src/fft_mixed_radix.c:159-169 | after phase one, cell Q*k + i holds entry k of the P-point child applied to column i, times twiddle[i*k] |
| Pipeline.Phase2At | src/fft/src/fft_mixed_radix.c:182-192 | after phase two, output k*P + i holds entry k of the Q-point child applied to row i |
| Pipeline.Phase1CellLocal | src/fft/src/fft_mixed_radix.c:159-169 | a phase-one cell depends on the buffer only through its own column |
| MixedRadixPlan.Plan.CopyInput | src/fft/src/fft_mixed_radix.c:150 | the working buffer becomes a copy of the input |
| MixedRadixPlan.Plan.RunChild | src/fft/src/fft_mixed_radix.c:165 | running a child of size m writes child(t0[..m]) into t1[..m] and leaves the rest of t1 |
| MixedRadixPlan.Plan.GatherColumn | src/fft/src/fft_mixed_radix.c:161-162 | t0[..P] becomes column i of the buffer |
| MixedRadixPlan.Plan.ScatterColumn | src/fft/src/fft_mixed_radix.c:168-169 | x[Q*k + i] becomes t1[k] * twiddle[i*k] for every k < P, all indices in range, every cell outside column i unchanged |
| MixedRadixPlan.Plan.TransformColumn | src/fft/src/fft_mixed_radix.c:159-169 | one phase-one column step writes the phase-one cells of column i and changes nothing else |
| MixedRadixPlan.Plan.GatherRow | src/fft/src/fft_mixed_radix.c:184-185 | t0[..Q] becomes row i of the buffer and the rest of t0 keeps its value |
| MixedRadixPlan.Plan.ScatterTransposed | src/fft/src/fft_mixed_radix.c:191-192 | y[k*P + i] becomes t1[k] for every k < Q, every other output cell unchanged |
| MixedRadixPlan.Plan.TransformRow | src/fft/src/fft_mixed_radix.c:182-192 | one phase-two row step writes the phase-two outputs of row i and changes no other output cell |
| MixedRadixPlan.Plan.Execute | src/fft/src/fft_mixed_radix.c:137-200 | the output is MixedRadix of the input as it was on entry, whatever the buffers held before |
| CooleyTukey.Phase1Entry | src/fft/src/fft_mixed_radix.c:159-169 | with exact DFT children and power twiddles, phase-one cell Q*k1 + i is, modulo M, the column DFT sum times w^(i*k1) |
| CooleyTukey.MixedRadixEntry | src/fft/src/fft_mixed_radix.c:22-24 | entry P*k2 + k1 of the mixed-radix transform is entry P*k2 + k1 of the N-point DFT |
| CooleyTukey.MixedRadixIsDft | src/fft/src/fft_mixed_radix.c:22-24 | with w^N = 1, a table of powers of w, the ring product and exact DFT children, the mixed-radix transform equals the N-point DFT |
| CooleyTukey.ExecuteComputesDft | src/fft/src/fft_mixed_radix.c:22-24 | executing such a plan leaves in the output the N-point DFT of the input as it was on entry |

## Left out

- Twiddle values: `cexpf` of the angle d*2*pi*i/N and all floating-point arithmetic are an abstract function `expi(d, i, N)` and an abstract product `mul`; the DFT theorem is stated over the integers modulo M instead of the complex numbers.
- Memory management: `malloc`/`free` and plan destruction are not modelled; arrays are allocated with `new` and never released.
- Termination on failure: the message to stderr and `exit(1)` become the error result `NotDecomposable(N)`.
- The debug `printf` blocks are I/O and are not modelled.
- The external plan factory and executor are not part of this model: the children are length-preserving functions on sequences supplied by a factory of (size, direction), and running a child is `t1[..m] := child(t0[..m])`.
- The plan fields `flags`, `kind`, `method` and the `execute` pointer carry no behaviour here; the direction is the two-valued `Direction` (any non-forward value of the source normalises to reverse).
- Integer width: sizes and indices are unbounded. The indices `Q*k+i`, `k*P+i` and `i*k` need no wrap-around model, because `IndexMaps.GridStep`, `IndexMaps.FlattenRoundTrip` and `IndexMaps.TwiddleIndexInRange` prove them below N, which is itself an `unsigned int`. What is not modelled is the byte counts `nfft*sizeof(TC)` and `t_len*sizeof(TC)` passed to `malloc` and `memmove`, which can overflow for huge N; they belong to memory management, which is left out.
- MixedRadixPlan.Plan.RunChild: a child may in the source read and write anything it can reach; the model assumes it reads only `t0[..m]` and writes only `t1[..m]`.
