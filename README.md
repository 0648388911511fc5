# jdftx: SCF mixing, reciprocal-space kernel indexing, Wannier bookkeeping

A Dafny model of three sequential pieces of the JDFTx plane-wave DFT code, with proofs
of what each promises.

- **The self-consistent-field cycle** (`electronic_scf.dfy`, module `Electronic`,
  class `SCF`), from `jdftx/electronic/SCF.cpp`.
  - `minimize` runs a bounded outer loop. Each pass:
    - clears the history when it is full;
    - records the mixed variable (density or potential);
    - runs the band minimizer for every quantum number at the frozen Hamiltonian;
    - re-evaluates the energy;
    - stops once the energy moved by less than `energyDiffThreshold`;
    - otherwise mixes: either plain damping (`mixPlain`) or DIIS (`mixDIIS`).
  - DIIS records the residual and keeps a residual overlap matrix. It falls back to plain
    mixing until the window is full. Then it replaces the variable by a weighted sum of
    its history, the weights being column 0 of the overlap eigenvectors normalised to
    sum to 1.
  - The class keeps the history vectors and the `history x history` overlap array as
    fields. Its invariant states that the leading block of the array is the overlap
    (Gram) matrix of the recorded residuals.
  - One pass is also specified as a function on `Snapshot`s (the variables and the
    three histories). `Cached` records the variables, `Solved` adds the band solve and
    re-evaluation, `Mixed` mixes and recomputes the potential, and `Next` is a pass that
    does not converge. `Minimize` returns the snapshot each pass starts from. It states
    each pass's energy and the final state in terms of these functions.
  - Fields and their per-spin collections are in `scalar_fields.dfy` (module
    `ScalarFields`). `integral(f)` is the volume element times the sum of the samples.
- **The kernel index maps** (`coulomb_kernels.dfy`, module `CoulombKernels`), from
  `multRealKernel_calc` and `multTransformedKernel_calc` in `jdftx/core/Coulomb_internal.h`.
  - The real kernel folds by inversion symmetry and then lifts negative components.
  - The transformed kernel applies a rotation and an offset, then wraps each component
    with C++'s truncating `%` followed by `+S`.
  - Either way a row-major slot is formed and `data[i]` is scaled in place.
  - C++ `%` and `/` on `int` are modelled as `TruncRem` and `TruncDiv`. Dafny's own
    operators are Euclidean.
- **The Wannier minimizer's bookkeeping** (`wannier.dfy`, module `Wannier`), from
  `jdftx/wannier/WannierMinimizer.cpp`.
  - The vector-space operations on a `WannierGradient`: `clone`, `dot`, `*=`, `axpy`, and
    `step`, which applies `axpy` to every `kMesh[i].B`.
  - The order and equality on `Kpoint`.
  - The `Index` arrays and the memoised `addIndex`.
- `linear_algebra.dfy` (module `LinearAlgebra`) holds `vector3<int>`, `matrix3<int>` and
  complex numbers.

In these details the model follows the code as written:

- The overlap matrix is not cleared when the history window restarts. Only
  `pastResiduals` is cleared. The stale entries are harmless, because the leading block
  is always rewritten before it is read. The class invariant `OverlapConsistent` states
  this.
- The DIIS normalisation `norm` is used unguarded, with no fallback to plain mixing when
  it vanishes. The model makes a non-zero column sum a precondition (`UsableEigenvectors`).
- Column 0 of whatever the diagonalisation returns is used. No eigenvalue ordering is
  assumed.
- `mixPlain` stores the kinetic mix into `tau` even in potential mode, where it reads
  `Vtau`. `PlainMixTauTarget` states this.
- `E` is read uninitialised on the first pass. The model takes its value as the
  parameter `eInit`.
- `pastVariables_tau.back()` is evaluated even when the functional does not need `tau`.
  The model passes that argument as an `Option`.
- No configuration is validated. `history >= 1` is required under DIIS, because with
  `history == 0` the first overlap write lands outside a `0 x 0` matrix.

## Model

| member | source | states |
|---|---|---|
| Electronic.SCF.Minimize | jdftx/electronic/SCF.cpp:31-109 | After one probe evaluation of the initial guess (its energy discarded) and with empty histories: at most `nIterations` passes; the run converges exactly at the first pass whose energy moved by less than the threshold (iff, for every pass); every pass starts where the start-of-pass invariant holds, its energy is the one evaluated from its start, and each start is `Next` of the one before; the final state is `Solved` of the last start when converged and `Next` of it otherwise; the band minimizer runs `nStates` times per pass; plain mode never records residuals |
| Electronic.SCF.RunPasses | jdftx/electronic/SCF.cpp:57-107 | The loop from the current state: the first pass starts from it; the same convergence iff, per-pass energies, `Next` chain, final state and band-call count as `Minimize` |
| Electronic.SCF.TracedPass | jdftx/electronic/SCF.cpp:58-106 | One more pass keeps the loop's `Progress`: the pass count grows by one, only the new pass can meet the threshold and it does exactly when the run stops, its start and energy extend the run, and the solver ends in its `Solved` or `Next` state |
| Electronic.SCF.Pass | jdftx/electronic/SCF.cpp:59-106 | `E` is the energy evaluated from the band-solved start; `done` iff `|E - Eprev| < energyDiffThreshold`; when done the state is `Solved(start)` (recorded and re-evaluated, not mixed), otherwise `Next(start)` with the start-of-pass invariant restored; `nStates` band calls |
| Electronic.SCF.SolveAndEvaluate | jdftx/electronic/SCF.cpp:59-85 | The new state is `Solved(start)`: the histories as `Cached` records them and the variables the evaluator applied to the band-solved variables; `E` is that evaluation's energy; `nStates` band calls; the histories relate as mixing expects |
| Electronic.SCF.CacheVariables | jdftx/electronic/SCF.cpp:59-70 | The new state is `Cached(old state)`: the histories are cleared exactly when either already held `history` entries (residuals only under DIIS, tau only when needed), then the current variable is appended; afterwards 1 <= size <= Capacity() (history, or 1 when history == 0) |
| Electronic.SCF.Cached | jdftx/electronic/SCF.cpp:59-70 | The histories after lines 59-70, as a function of the snapshot (partner of `CacheVariables`; `CachedAwaitsMix` states its effect on the invariant) |
| Electronic.SCF.CachedAwaitsMix | jdftx/electronic/SCF.cpp:59-70 | Recording turns the start-of-pass relation of the histories into the one mixing expects (one more variable than residual under DIIS), keeps the variables, and the last recorded entry is the current mixed variable |
| Electronic.SCF.Evaluated | jdftx/electronic/SCF.cpp:72-85 | The energy and variables `elecEnergyAndGrad` returns once the band minimizer has run for every quantum number |
| Electronic.SCF.Solved | jdftx/electronic/SCF.cpp:59-85 | A pass up to the convergence test: `Cached` histories with the `Evaluated` variables |
| Electronic.SCF.SolvedAwaitsMix | jdftx/electronic/SCF.cpp:59-85 | After recording, solving and evaluating, the histories relate as mixing expects |
| Electronic.SCF.RecordedResiduals | jdftx/electronic/SCF.cpp:128-131 | Under DIIS the residual `variable_n - pastVariables_n.back()` is appended; plain mixing leaves the residuals alone |
| Electronic.SCF.MixedVars | jdftx/electronic/SCF.cpp:96-101 | The variables after `mixPlain` or `mixDIIS`: plain mixing against the last recorded variable, under DIIS too while the window is not full; once it is full, the weighted sum of the history with `DiisWeights` of the diagonalised overlap matrix of the recorded residuals |
| Electronic.SCF.Mixed | jdftx/electronic/SCF.cpp:94-106 | `MixedVars`, then `EdensityAndVscloc` in density mode only, with the residual recorded under DIIS |
| Electronic.SCF.Next | jdftx/electronic/SCF.cpp:59-106 | A pass that does not converge: `Mixed(Solved(s))` |
| Electronic.SCF.MixedVarsShaped | jdftx/electronic/SCF.cpp:94-101 | Mixing keeps the spin and grid shapes of the variables and never touches the wavefunctions |
| Electronic.SCF.NextResting | jdftx/electronic/SCF.cpp:59-106 | A pass that mixes leaves the histories related as the next pass expects, with at least one recorded variable |
| Electronic.SCF.TraceExtend | jdftx/electronic/SCF.cpp:57-107 | A run extended by a pass that starts where the last one left off after mixing, with the energy evaluated from that start, is again a run |
| Electronic.SCF.TracePasses | jdftx/electronic/SCF.cpp:57-107 | In a run every pass starts where the invariant holds, reports the energy evaluated from its start, and starts at `Next` of the previous start |
| Electronic.SCF.MixVariables | jdftx/electronic/SCF.cpp:96-101 | The variables become `MixedVars(old state)` and the residual history `RecordedResiduals(old state)`; the overlap invariant is kept |
| Electronic.SCF.MixAndUpdatePotential | jdftx/electronic/SCF.cpp:94-106 | The new state is `Mixed(old state)`: plain or DIIS mixing, the residual appended under DIIS, and `EdensityAndVscloc` exactly in density mode; the start-of-pass invariant is restored |
| Electronic.SCF.SolveAtFixedHamiltonian | jdftx/electronic/SCF.cpp:72-80 | The band minimizer is called once per quantum number in order 0..nStates-1 and only the wavefunctions change |
| Electronic.BandsSolved | jdftx/electronic/SCF.cpp:75-79 | Solving bands changes only `C`, and quantum numbers not yet visited keep their wavefunctions |
| Electronic.TraceExtension | jdftx/electronic/SCF.cpp:68-90 | Appending a pass's energy leaves earlier convergence verdicts unchanged, and the new verdict compares against the previous pass's energy |
| Electronic.ThresholdExtension | jdftx/electronic/SCF.cpp:68-92 | When no earlier pass met the threshold, after appending a pass that met it exactly when `done`, that last pass is the only one that did |
| Electronic.SCF.constructor | jdftx/electronic/SCF.cpp:22-24 | A fresh `history x history` overlap array with empty histories satisfies the invariant |
| Electronic.SCF.MixPlain | jdftx/electronic/SCF.cpp:111-119 | Every spin channel of the mixed variable becomes `f*current + (1-f)*prev`; tau becomes the mix of `variable_tau` and `prevTau` only with a kinetic functional; nothing else changes |
| Electronic.PlainMixEndpoints | jdftx/electronic/SCF.cpp:111-119 | `f = 1` keeps the current variable, `f = 0` restores the previous one, wavefunctions never change and tau is untouched without a kinetic functional |
| Electronic.PlainMixTauTarget | jdftx/electronic/SCF.cpp:116-117 | In potential mode the kinetic mix is written into `tau` and `Vtau` keeps its value |
| Electronic.Mix | jdftx/electronic/SCF.cpp:115-117 | `f * current + (1 - f) * previous` keeps the spin and grid shape of its inputs (its endpoints are `PlainMixEndpoints`) |
| Electronic.PlainMixed | jdftx/electronic/SCF.cpp:111-119 | The variables after `mixPlain` (partner of `MixPlain`; `PlainMixEndpoints` and `PlainMixTauTarget` state its properties) |
| Electronic.OverlapResiduals | jdftx/electronic/SCF.cpp:28-29 | The integral of the product of the first spin channels, plus that of the second when there are two (properties in `OverlapSymmetric` and `OverlapSelfNonNegative`) |
| Electronic.OverlapSymmetric | jdftx/electronic/SCF.cpp:28-29 | `overlapResiduals(r1, r2) == overlapResiduals(r2, r1)` |
| Electronic.OverlapSelfNonNegative | jdftx/electronic/SCF.cpp:28-29 | The self-overlap of a residual is non-negative for a non-negative volume element |
| Electronic.Gram | jdftx/electronic/SCF.cpp:136-141 | The overlap matrix of a residual history is square of the history's size and symmetric |
| Electronic.SCF.RecordResidual | jdftx/electronic/SCF.cpp:128-141 | Exactly one residual `variable_n - pastVariables_n.back()` is appended; the leading block is the overlap matrix of the new history; entries off the new row and column are unchanged |
| Electronic.SCF.FillOverlap | jdftx/electronic/SCF.cpp:136-141 | Writing row and column `ndim-1` symmetrically extends the Gram-matrix invariant from `ndim-1` to `ndim` residuals and touches no other entry |
| Electronic.SCF.MixDIIS | jdftx/electronic/SCF.cpp:121-187 | Records one residual; while `ndim != history` the result is exactly `mixPlain` against the last recorded variable; at `ndim == history` the variable (and tau variable) is the DIIS-weighted sum of its history |
| Electronic.SCF.ExtrapolateDIIS | jdftx/electronic/SCF.cpp:149-183 | The diagonalised block is the Gram matrix of the residuals, and the new variables are the weighted sums of the histories with weights from its eigenvectors |
| Electronic.DiisCombination | jdftx/electronic/SCF.cpp:163-183 | The zero-then-accumulate loops produce the weighted sums with weights `evec[j][0] / norm` |
| Electronic.ColumnSum | jdftx/electronic/SCF.cpp:164-166 | `norm` is the sum of eigenvector column 0 |
| Electronic.ZeroChannels | jdftx/electronic/SCF.cpp:171-175 | `*= 0.` on every channel yields the zero collection |
| Electronic.AccumulateChannels | jdftx/electronic/SCF.cpp:178-182 | `+= weight * v` on every channel yields `acc + weight * v` |
| Electronic.DiisWeightsSumToOne | jdftx/electronic/SCF.cpp:163-177 | There is one weight per history entry, and the weights sum to 1 whenever `norm != 0` |
| Electronic.WeightedSum | jdftx/electronic/SCF.cpp:171-183 | The weighted sum of the history, accumulated from zero in history order, has the spin and grid shape of the history |
| Electronic.DiisMixed | jdftx/electronic/SCF.cpp:171-183 | The variables after a full-window DIIS step: `variable_n`, and `variable_tau` when needed, become weighted sums of their histories (partner of `ExtrapolateDIIS`) |
| Electronic.WeightedSumOfRepeated | jdftx/electronic/SCF.cpp:176-183 | A weighted sum of copies of one variable is that variable times the weight total |
| Electronic.DiisReproducesStagnantHistory | jdftx/electronic/SCF.cpp:163-183 | When every recorded variable is the same, DIIS returns it unchanged |
| CoulombKernels.TruncRem | jdftx/core/Coulomb_internal.h:183 | C++ `%`: the remainder is smaller than the divisor in magnitude and takes the dividend's sign |
| CoulombKernels.TruncDiv | jdftx/core/Coulomb_internal.h:166 | C++ `/`: the magnitude of the quotient is that of the magnitudes' floor quotient, and its sign is non-negative exactly when the operands' signs agree, so it rounds toward zero |
| CoulombKernels.Wrap | jdftx/core/Coulomb_internal.h:183-184 | `%` then `+S` if negative: for a positive count the result lies in `[0, S)` |
| CoulombKernels.TruncDivRem | jdftx/core/Coulomb_internal.h:166 | C++ `/` and `%` satisfy `(a / b) * b + a % b == a` |
| CoulombKernels.WrapIsResidue | jdftx/core/Coulomb_internal.h:182-185 | For `S[k] > 0`, `%` then `+S` if negative gives the Euclidean residue, which lies in `[0, S[k])` |
| CoulombKernels.WrapPeriodic | jdftx/core/Coulomb_internal.h:182-185 | Shifting the input by a multiple of the count does not change the wrapped value |
| CoulombKernels.FlatIndexBounds | jdftx/core/Coulomb_internal.h:186 | A point inside the grid has a row-major slot in `[0, S0*S1*S2)` |
| CoulombKernels.FlatIndexInjective | jdftx/core/Coulomb_internal.h:186 | Two in-grid points share a slot iff they are the same point |
| CoulombKernels.TransformedIndex | jdftx/core/Coulomb_internal.h:180-186 | The row-major slot of `rot * (iG - offset)` reduced into the grid (bounds, residues and periodicity in the three lemmas below) |
| CoulombKernels.TransformedIndexBounds | jdftx/core/Coulomb_internal.h:180-186 | With positive counts the reduced point is inside the grid and the slot is in `[0, S0*S1*S2)` |
| CoulombKernels.TransformedComponentsAreResidues | jdftx/core/Coulomb_internal.h:180-185 | Each reduced component is `rot*(iG - offset)` modulo its count |
| CoulombKernels.TransformedIndexPeriodic | jdftx/core/Coulomb_internal.h:180-186 | Grid points whose transformed coordinates differ by multiples of `S` read the same slot |
| CoulombKernels.MultTransformedKernel | jdftx/core/Coulomb_internal.h:176-189 | The wrap loop computes the reduced point; only `data[i]` changes, scaled by the kernel at the transformed slot |
| CoulombKernels.RealFold | jdftx/core/Coulomb_internal.h:162-165 | The folded z component is `abs(iG[2])`, so it is never negative |
| CoulombKernels.RealKernelIndex | jdftx/core/Coulomb_internal.h:162-166 | The half-grid slot of the folded point (bounds and inversion symmetry in `RealKernelIndexBounds` and `RealKernelInversionSymmetric`) |
| CoulombKernels.RealKernelInversionSymmetric | jdftx/core/Coulomb_internal.h:162-166 | For `iG[2] != 0`, `iG` and `-iG` fold to the same point and read the same slot |
| CoulombKernels.RealKernelIndexBounds | jdftx/core/Coulomb_internal.h:162-166 | For `abs(iG[0]) < S0`, `abs(iG[1]) < S1`, `abs(iG[2]) <= S2/2` the folded point lies in the half grid and the slot in `[0, S0*S1*(1 + S2/2))` |
| CoulombKernels.MultRealKernel | jdftx/core/Coulomb_internal.h:159-169 | Only `data[i]` changes, scaled by the real kernel at the folded slot |
| Wannier.Clone | jdftx/wannier/WannierMinimizer.cpp:29 | `clone` returns a fresh gradient equal to its argument |
| Wannier.Dot | jdftx/wannier/WannierMinimizer.cpp:30-36 | The accumulation loop returns the sum over k-points of `Re dotc(x[i], y[i])` |
| Wannier.GradDotSymmetric | jdftx/wannier/WannierMinimizer.cpp:30-36 | `dot(x, y) == dot(y, x)` |
| Wannier.GradDotSelfNonNegative | jdftx/wannier/WannierMinimizer.cpp:30-36 | `dot(x, x) >= 0` |
| Wannier.ReDotc | jdftx/wannier/WannierMinimizer.cpp:34 | `dotc(a, b).real()`: the sum of `Re(conj(a[k]) * b[k])` over the entries (properties in the lemmas below) |
| Wannier.ReDotcSymmetric | jdftx/wannier/WannierMinimizer.cpp:34 | `Re dotc(a, b) == Re dotc(b, a)` |
| Wannier.ReDotcSelfNonNegative | jdftx/wannier/WannierMinimizer.cpp:34 | `Re dotc(a, a) >= 0` |
| Wannier.ScaleInPlace | jdftx/wannier/WannierMinimizer.cpp:37-40 | `x *= alpha` scales every matrix and keeps the length |
| Wannier.GradDotScale | jdftx/wannier/WannierMinimizer.cpp:30-40 | `dot(alpha x, y) == alpha dot(x, y)`, so `*=` and `dot` fit together as the minimizer needs |
| Wannier.ReDotcScale | jdftx/wannier/WannierMinimizer.cpp:34-38 | `Re dotc(alpha a, b) == alpha Re dotc(a, b)` |
| Wannier.Axpy | jdftx/wannier/WannierMinimizer.cpp:41-44 | `y[i] := y[i] + alpha x[i]` for every k-point, the length is kept and `x` is unchanged unless it is `y` |
| Wannier.GradDotAxpy | jdftx/wannier/WannierMinimizer.cpp:30-44 | `dot(z, y + alpha x) == dot(z, y) + alpha dot(z, x)` |
| Wannier.DotTermsAxpy | jdftx/wannier/WannierMinimizer.cpp:30-44 | After `axpy` each k-point's term of `dot(z, .)` is its old term plus `alpha` times its term in `dot(z, x)` |
| Wannier.ReDotcAxpy | jdftx/wannier/WannierMinimizer.cpp:34-43 | `Re dotc(z, y + alpha x) == Re dotc(z, y) + alpha Re dotc(z, x)` |
| Wannier.WannierMinimizer.Step | jdftx/wannier/WannierMinimizer.cpp:60-64 | Given one gradient matrix per k-point, each `kMesh[i].B` becomes `B + alpha grad[i]` and no other field of the mesh changes |
| Wannier.KpointLess | jdftx/wannier/WannierMinimizer.cpp:129-135 | Lexicographic `<` on `q`, `iRot`, `invert`, then `offset` (order properties in the lemmas below) |
| Wannier.KpointEqual | jdftx/wannier/WannierMinimizer.cpp:137-143 | `==` compares the same four fields in the same order |
| Wannier.KpointEqualIffSameKey | jdftx/wannier/WannierMinimizer.cpp:137-143 | `==` holds iff `q`, `iRot`, `invert` and `offset` are all equal |
| Wannier.KpointEqualNotLess | jdftx/wannier/WannierMinimizer.cpp:129-143 | Equal k-points are not `<` either way; in particular `<` is irreflexive |
| Wannier.KpointLessTransitive | jdftx/wannier/WannierMinimizer.cpp:129-135 | With a strict total order on offsets, the lexicographic `<` is transitive |
| Wannier.KpointEquivalentIffSameKey | jdftx/wannier/WannierMinimizer.cpp:129-135 | `<` is asymmetric, and neither `a < b` nor `b < a` holds iff the compared fields agree |
| Wannier.RotationForInverted | jdftx/wannier/WannierMinimizer.cpp:195 | The rotation with `invert = -1` maps every G-vector to the negative of its image under `invert = +1` |
| Wannier.Index.constructor | jdftx/wannier/WannierMinimizer.cpp:146-153 | `data` has `nIndices` entries, and `dataSuper` is allocated (distinct, of the same size) iff a supercell index is needed |
| Wannier.FillIndex | jdftx/wannier/WannierMinimizer.cpp:196-201 | `data[j]` is the full-grid index of `mRot * iGarr[j] - offset`; with a supercell array, `dataSuper[j]` is the supercell index of `ksuper + iGrot * super` |
| Wannier.WannierMinimizer.AddIndex | jdftx/wannier/WannierMinimizer.cpp:180-204 | If the k-point is cached, `indexMap` is unchanged; otherwise exactly its key is added with a fresh index of `nbasis` entries built for it, with `dataSuper` present iff wavefunctions are saved, and no other key is touched |

## Left out

- The band minimizer, `elecEnergyAndGrad`, `EdensityAndVscloc` and `matrix::diagonalize` are external collaborators. They enter as function values in `Collaborators`, and only the conditions in `SCF.Dependable` are assumed of them. `BandMinimizer.h` declares no bodies.
- `integral` is modelled as volume element times sample sum. Its implementation is not part of this model.
- Floating point is modelled as exact `real` arithmetic.
- The logging (`logPrintf`, `logSuspend`, `logResume`), the `e.ener` resets, `iInfo.update` and the `cntrl.fixed_n` flags are left out.
- ExtrapolateDIIS: the check `residual` of lines 170-183 feeds only a log line, so it is not computed.
- Electronic.SCF.Minimize: the `history == 0` case under DIIS is excluded by the class invariant. There the source writes outside a `0 x 0` overlap matrix.
- MultRealKernel: the slot is computed in exact integers. The `size_t` conversion of `1 + S[2]/2` and the unsigned wrap-around of a negative slot are not modelled. On the domain of `RealKernelIndexBounds` every term is non-negative.
- MultTransformedKernel: the slot is computed in exact integers. The `size_t` conversion is not modelled, and after the wrap loop with positive counts all terms are non-negative.
- Both kernel routines work on the whole `data` array as a Dafny `array`. The loops over the grid (`multRealKernel`, `multTransformedKernel`) and the GPU variants are declarations only and are not modelled.
- KpointLess: `vector3<int>`'s `<` is not part of this model. It is a parameter, and its properties are assumed as `StrictTotalOrder` where needed.
- AddIndex: `ksuper` (the rounded `kpoint.k * super - qnumSuper.k`, with its rounding assertion) is a parameter. `gInfo.fullGindex` and `gInfoSuper.fullGindex` are function parameters. `indexMap` holds `shared_ptr`s, modelled as references.
- Dot and Step: the `assert` on matching sizes is a precondition.
- `ReDotc`, `MatScale` and `MatAxpy` treat a `matrix` as its entries in storage order. Row and column counts play no part.
- `WannierMinimizer::compute`, `hydrogenicTilde`, `trialWfns`, `getWfns`, `Index::set`, `~Index`, `randomMatrix` and `randomize` are left out. They involve transcendental floating point, matrix exponentials, MPI reductions, GPU transfers and random numbers.
- The Coulomb and exchange kernel evaluators in `Coulomb_internal.h` are left out, as is the command parsing in `basis.cpp`.
