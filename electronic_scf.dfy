/** The self-consistent-field cycle of jdftx/electronic/SCF.cpp: an outer loop that solves
    the bands at a frozen Hamiltonian, re-evaluates the energy, stops once the energy change
    falls below a threshold, and otherwise mixes the density (or potential) with its history,
    either by plain damping or by DIIS over a residual overlap matrix.

    The band minimizer, the energy/density evaluator, the potential-from-density recompute
    and the matrix diagonalization are not part of this model: they arrive as the function
    values of a `Collaborators` record. */
module Electronic {
  import opened ScalarFields

  /** Which quantity defines the Kohn-Sham Hamiltonian and is mixed. */
  datatype MixedVariable = Density | Potential

  datatype VectorExtrapolation = PlainMixing | DIIS

  /** The configuration record `residualMinimizerParams`. */
  datatype ResidualMinimizerParams = ResidualMinimizerParams(
    nIterations: int,
    history: nat,
    energyDiffThreshold: real,
    vectorExtrapolationMethod: VectorExtrapolation,
    mixedVariable: MixedVariable)

  /** The part of the electronic variables the cycle reads and writes: wavefunctions per
      quantum number, electron and kinetic-energy densities, and the matching potentials. */
  datatype ElecVars = ElecVars(
    C: seq<Field>,
    n: Collection,
    tau: Collection,
    Vscloc: Collection,
    Vtau: Collection)

  datatype Option<T> = None | Some(value: T)

  /** External collaborators of the cycle. `bandMinimize(q, e)` returns the new wavefunctions
      of quantum number q at the frozen Hamiltonian; `elecEnergyAndGrad` returns the total
      energy and the electronic variables with recomputed densities; `edensityAndVscloc`
      recomputes the local potential from the density; `diagonalize` returns the eigenvector
      matrix (real parts, row-major) of a symmetric matrix. */
  datatype Collaborators = Collaborators(
    bandMinimize: (nat, ElecVars) -> Field,
    elecEnergyAndGrad: ElecVars -> (real, ElecVars),
    edensityAndVscloc: ElecVars -> ElecVars,
    diagonalize: seq<seq<real>> -> seq<seq<real>>)

  function Abs(x: real): real
  {
    if x < 0.0 then -x else x
  }

  function Last<T>(s: seq<T>): T
    requires |s| > 0
  {
    s[|s| - 1]
  }

  /** `variable_n`: the density in density mode, `Vscloc` in potential mode. */
  function VariableN(e: ElecVars, mv: MixedVariable): Collection
  {
    if mv == Density then e.n else e.Vscloc
  }

  /** `variable_tau`: `tau` in density mode, `Vtau` in potential mode. */
  function VariableTau(e: ElecVars, mv: MixedVariable): Collection
  {
    if mv == Density then e.tau else e.Vtau
  }

  function WithVariableN(e: ElecVars, mv: MixedVariable, v: Collection): ElecVars
  {
    if mv == Density then e.(n := v) else e.(Vscloc := v)
  }

  function WithVariableTau(e: ElecVars, mv: MixedVariable, v: Collection): ElecVars
  {
    if mv == Density then e.(tau := v) else e.(Vtau := v)
  }

  // ---------------------------------------------------------------- plain mixing

  /** `f * current + (1 - f) * previous`, spin channel by spin channel. */
  function Mix(f: real, current: Collection, previous: Collection): (r: Collection)
    requires SameShape(current, previous)
    ensures SameShape(r, current)
  {
    seq(|current|, s requires 0 <= s < |current| =>
      Add(Scale(f, current[s]), Scale(1.0 - f, previous[s])))
  }

  /** The electronic variables after `mixPlain`: `variable_n` is mixed with `prevN`, and,
      when the functional needs the kinetic-energy density, the mix of `variable_tau` with
      `prevTau` is stored into `tau` (whatever `variable_tau` refers to). */
  function PlainMixed(e: ElecVars, mv: MixedVariable, needsKE: bool,
                      prevN: Collection, prevTau: Option<Collection>, f: real): ElecVars
    requires SameShape(VariableN(e, mv), prevN)
    requires needsKE ==> prevTau.Some? && SameShape(VariableTau(e, mv), prevTau.value)
  {
    var mixed := WithVariableN(e, mv, Mix(f, VariableN(e, mv), prevN));
    if needsKE then mixed.(tau := Mix(f, VariableTau(e, mv), prevTau.value)) else mixed
  }

  /** Plain mixing is a linear interpolation: fraction 1 keeps the current variable,
      fraction 0 restores the previous one, and nothing but the mixed fields changes. */
  lemma PlainMixEndpoints(e: ElecVars, mv: MixedVariable, needsKE: bool,
                          prevN: Collection, prevTau: Option<Collection>, f: real)
    requires SameShape(VariableN(e, mv), prevN)
    requires needsKE ==> prevTau.Some? && SameShape(VariableTau(e, mv), prevTau.value)
    ensures f == 1.0 ==> VariableN(PlainMixed(e, mv, needsKE, prevN, prevTau, f), mv) == VariableN(e, mv)
    ensures f == 0.0 ==> VariableN(PlainMixed(e, mv, needsKE, prevN, prevTau, f), mv) == prevN
    ensures PlainMixed(e, mv, needsKE, prevN, prevTau, f).C == e.C
    ensures !needsKE ==> PlainMixed(e, mv, needsKE, prevN, prevTau, f).tau == e.tau
  {
    var v := VariableN(e, mv);
    var m := Mix(f, v, prevN);
    if f == 1.0 {
      forall s | 0 <= s < |v| ensures m[s] == v[s] {
        assert forall i :: 0 <= i < |v[s]| ==> m[s][i] == v[s][i];
      }
    }
    if f == 0.0 {
      forall s | 0 <= s < |v| ensures m[s] == prevN[s] {
        assert forall i :: 0 <= i < |v[s]| ==> m[s][i] == prevN[s][i];
      }
    }
  }

  /** In potential mode `mixPlain` reads `Vtau` but writes the mix into `tau`, so the
      kinetic potential `Vtau` itself is left as it was. */
  lemma PlainMixTauTarget(e: ElecVars, needsKE: bool, prevN: Collection,
                          prevTau: Option<Collection>, f: real)
    requires SameShape(e.Vscloc, prevN)
    requires needsKE ==> prevTau.Some? && SameShape(e.Vtau, prevTau.value)
    ensures PlainMixed(e, Potential, needsKE, prevN, prevTau, f).Vtau == e.Vtau
    ensures needsKE ==> PlainMixed(e, Potential, needsKE, prevN, prevTau, f).tau == Mix(f, e.Vtau, prevTau.value)
  {
  }

  // ---------------------------------------------------------------- DIIS

  /** `overlapResiduals(r1, r2)`: the integral of the product of the first spin channels,
      plus that of the second when there are two. */
  function OverlapResiduals(r1: Collection, r2: Collection, dV: real): real
    requires SameShape(r1, r2) && |r1| >= 1
  {
    Integral(Mul(r1[0], r2[0]), dV)
      + (if |r1| == 2 then Integral(Mul(r1[1], r2[1]), dV) else 0.0)
  }

  lemma OverlapSymmetric(r1: Collection, r2: Collection, dV: real)
    requires SameShape(r1, r2) && |r1| >= 1
    ensures OverlapResiduals(r1, r2, dV) == OverlapResiduals(r2, r1, dV)
  {
    IntegralOfProductSymmetric(r1[0], r2[0], dV);
    if |r1| == 2 {
      IntegralOfProductSymmetric(r1[1], r2[1], dV);
    }
  }

  /** The self-overlap of a residual is a squared norm. */
  lemma OverlapSelfNonNegative(r: Collection, dV: real)
    requires SameShape(r, r) && |r| >= 1 && dV >= 0.0
    ensures OverlapResiduals(r, r, dV) >= 0.0
  {
    SumOfSquaresNonNegative(r[0]);
    if |r| == 2 {
      SumOfSquaresNonNegative(r[1]);
    }
  }

  /** Every entry of a residual history has the same spin and grid shape. */
  ghost predicate UniformHistory(rs: seq<Collection>)
  {
    forall i, j :: 0 <= i < |rs| && 0 <= j < |rs| ==> |rs[i]| >= 1 && SameShape(rs[i], rs[j])
  }

  /** The overlap matrix of a residual history, entry (i, j) being the overlap of
      residuals i and j. */
  function Gram(rs: seq<Collection>, dV: real): (g: seq<seq<real>>)
    requires UniformHistory(rs)
    ensures |g| == |rs| && forall i :: 0 <= i < |g| ==> |g[i]| == |rs|
    ensures forall i, j :: 0 <= i < |rs| && 0 <= j < |rs| ==> g[i][j] == g[j][i]
  {
    var g := seq(|rs|, i requires 0 <= i < |rs| =>
      seq(|rs|, j requires 0 <= j < |rs| => OverlapResiduals(rs[i], rs[j], dV)));
    assert forall i, j :: 0 <= i < |rs| && 0 <= j < |rs| ==> g[i][j] == g[j][i] by {
      forall i, j | 0 <= i < |rs| && 0 <= j < |rs| ensures g[i][j] == g[j][i] {
        OverlapSymmetric(rs[i], rs[j], dV);
      }
    }
    g
  }

  /** The leading `n x n` block of an array, `overlap(0, n, 0, n)`. */
  function Block(a: array2<real>, n: nat): seq<seq<real>>
    reads a
    requires n <= a.Length0 && n <= a.Length1
  {
    seq(n, i requires 0 <= i < n reads a => seq(n, j requires 0 <= j < n reads a => a[i, j]))
  }

  /** Column 0 of an eigenvector matrix. */
  function Column0(evecs: seq<seq<real>>): seq<real>
    requires forall j :: 0 <= j < |evecs| ==> |evecs[j]| >= 1
  {
    seq(|evecs|, j requires 0 <= j < |evecs| => evecs[j][0])
  }

  /** An `n x n` eigenvector matrix whose column 0 can be normalised to sum to 1. */
  ghost predicate UsableEigenvectors(evecs: seq<seq<real>>, n: nat)
  {
    |evecs| == n && (forall j :: 0 <= j < n ==> |evecs[j]| >= 1) && Sum(Column0(evecs)) != 0.0
  }

  /** The DIIS weights: column 0 divided by its sum. */
  function DiisWeights(evecs: seq<seq<real>>): (w: seq<real>)
    requires forall j :: 0 <= j < |evecs| ==> |evecs[j]| >= 1
    requires Sum(Column0(evecs)) != 0.0
  {
    var c := Column0(evecs);
    seq(|c|, j requires 0 <= j < |c| => c[j] / Sum(c))
  }

  lemma DiisWeightsSumToOne(evecs: seq<seq<real>>)
    requires forall j :: 0 <= j < |evecs| ==> |evecs[j]| >= 1
    requires Sum(Column0(evecs)) != 0.0
    ensures |DiisWeights(evecs)| == |evecs|
    ensures Sum(DiisWeights(evecs)) == 1.0
  {
    var c := Column0(evecs);
    assert DiisWeights(evecs) == seq(|c|, j requires 0 <= j < |c| => c[j] / Sum(c));
    var total := Sum(c);
    SumDivided(c, total);
    assert total / total == 1.0;
  }

  /** `sum_j ws[j] * vs[j]`, accumulated from zero in the order of the history. */
  function WeightedSum(ws: seq<real>, vs: seq<Collection>, nSpins: nat, nGrid: nat): (r: Collection)
    requires |ws| <= |vs|
    requires forall j :: 0 <= j < |vs| ==> Shaped(vs[j], nSpins, nGrid)
    ensures Shaped(r, nSpins, nGrid)
  {
    if |ws| == 0 then ZeroCollection(nSpins, nGrid)
    else AddC(WeightedSum(ws[..|ws| - 1], vs, nSpins, nGrid), ScaleC(ws[|ws| - 1], vs[|ws| - 1]))
  }

  /** `a * x + b * x == (a + b) * x` on collections. */
  lemma ScaleCDistributes(a: real, b: real, v: Collection)
    ensures SameShape(ScaleC(a, v), ScaleC(b, v))
    ensures AddC(ScaleC(a, v), ScaleC(b, v)) == ScaleC(a + b, v)
  {
    var lhs := AddC(ScaleC(a, v), ScaleC(b, v));
    forall s | 0 <= s < |v| ensures lhs[s] == ScaleC(a + b, v)[s] {
      forall i | 0 <= i < |v[s]| ensures lhs[s][i] == (a + b) * v[s][i] {
        calc {
          lhs[s][i];
          a * v[s][i] + b * v[s][i];
          (a + b) * v[s][i];
        }
      }
    }
  }

  /** A weighted sum of copies of one variable is that variable scaled by the weight total. */
  lemma {:induction false} WeightedSumOfRepeated(ws: seq<real>, vs: seq<Collection>, v: Collection,
                                                 nSpins: nat, nGrid: nat)
    requires Shaped(v, nSpins, nGrid)
    requires |ws| <= |vs|
    requires forall j :: 0 <= j < |vs| ==> Shaped(vs[j], nSpins, nGrid)
    requires forall j :: 0 <= j < |ws| ==> vs[j] == v
    ensures WeightedSum(ws, vs, nSpins, nGrid) == ScaleC(Sum(ws), v)
  {
    var k := |ws|;
    if k == 0 {
      var zero := ZeroCollection(nSpins, nGrid);
      forall s | 0 <= s < nSpins ensures zero[s] == ScaleC(0.0, v)[s] {
        assert forall i :: 0 <= i < nGrid ==> zero[s][i] == ScaleC(0.0, v)[s][i];
      }
    } else {
      var w := ws[..k - 1];
      WeightedSumOfRepeated(w, vs, v, nSpins, nGrid);
      assert Sum(ws) == Sum(w) + ws[k - 1];
      ScaleCDistributes(Sum(w), ws[k - 1], v);
    }
  }

  /** DIIS cannot move a stagnated history: when every recorded variable is the same,
      weights summing to 1 reproduce it. */
  lemma DiisReproducesStagnantHistory(evecs: seq<seq<real>>, vs: seq<Collection>, v: Collection,
                                      nSpins: nat, nGrid: nat)
    requires UsableEigenvectors(evecs, |vs|)
    requires Shaped(v, nSpins, nGrid)
    requires forall j :: 0 <= j < |vs| ==> vs[j] == v
    ensures WeightedSum(DiisWeights(evecs), vs, nSpins, nGrid) == v
  {
    DiisWeightsSumToOne(evecs);
    WeightedSumOfRepeated(DiisWeights(evecs), vs, v, nSpins, nGrid);
    forall s | 0 <= s < nSpins ensures ScaleC(1.0, v)[s] == v[s] {
      assert forall i :: 0 <= i < nGrid ==> ScaleC(1.0, v)[s][i] == v[s][i];
    }
  }

  /** `norm += overlapEvecs[j][0]` over the rows: the sum of column 0. */
  method ColumnSum(evecs: seq<seq<real>>) returns (norm: real)
    requires forall j :: 0 <= j < |evecs| ==> |evecs[j]| >= 1
    ensures norm == Sum(Column0(evecs))
  {
    var col := Column0(evecs);
    norm := 0.0;
    for j := 0 to |evecs|
      invariant norm == Sum(col[..j])
    {
      assert col[..j + 1][..j] == col[..j];
      norm := norm + evecs[j][0];
    }
    assert col[..|evecs|] == col;
  }

  /** `v[s] *= 0.` for every spin channel. */
  method ZeroChannels(v: Collection, nSpins: nat, nGrid: nat) returns (r: Collection)
    requires Shaped(v, nSpins, nGrid)
    ensures r == ZeroCollection(nSpins, nGrid)
  {
    r := v;
    for s := 0 to nSpins
      invariant |r| == nSpins
      invariant forall t :: 0 <= t < nSpins ==> r[t] == if t < s then Zero(nGrid) else v[t]
    {
      assert Scale(0.0, r[s]) == Zero(nGrid);
      r := r[s := Scale(0.0, r[s])];
    }
  }

  /** `acc[s] += weight * v[s]` for every spin channel. */
  method AccumulateChannels(acc: Collection, weight: real, v: Collection, nSpins: nat, nGrid: nat)
    returns (r: Collection)
    requires Shaped(acc, nSpins, nGrid) && Shaped(v, nSpins, nGrid)
    ensures r == AddC(acc, ScaleC(weight, v))
  {
    r := acc;
    for s := 0 to nSpins
      invariant |r| == nSpins
      invariant forall t :: 0 <= t < nSpins ==>
        r[t] == if t < s then Add(acc[t], Scale(weight, v[t])) else acc[t]
    {
      r := r[s := Add(r[s], Scale(weight, v[s]))];
    }
  }

  /** Lines 163-183 of `mixDIIS`: normalise column 0 of the eigenvectors so it sums to 1
      and form the weighted sums of the recorded variables (and kinetic variables). */
  method DiisCombination(overlapEvecs: seq<seq<real>>, variableN: Collection, variableTau: Collection,
                         pastN: seq<Collection>, pastTau: seq<Collection>, needsKE: bool,
                         nSpins: nat, nGrid: nat)
    returns (vn: Collection, vt: Collection)
    requires UsableEigenvectors(overlapEvecs, |overlapEvecs|)
    requires |overlapEvecs| <= |pastN| && (needsKE ==> |overlapEvecs| <= |pastTau|)
    requires Shaped(variableN, nSpins, nGrid) && (needsKE ==> Shaped(variableTau, nSpins, nGrid))
    requires forall j :: 0 <= j < |pastN| ==> Shaped(pastN[j], nSpins, nGrid)
    requires needsKE ==> forall j :: 0 <= j < |pastTau| ==> Shaped(pastTau[j], nSpins, nGrid)
    ensures vn == WeightedSum(DiisWeights(overlapEvecs), pastN, nSpins, nGrid)
    ensures needsKE ==> vt == WeightedSum(DiisWeights(overlapEvecs), pastTau, nSpins, nGrid)
    ensures !needsKE ==> vt == variableTau
  {
    var ndim := |overlapEvecs|;
    var norm := ColumnSum(overlapEvecs);
    ghost var weights := DiisWeights(overlapEvecs);
    vn := ZeroChannels(variableN, nSpins, nGrid);
    vt := variableTau;
    if needsKE {
      vt := ZeroChannels(variableTau, nSpins, nGrid);
    }
    for j := 0 to ndim
      invariant vn == WeightedSum(weights[..j], pastN, nSpins, nGrid)
      invariant needsKE ==> vt == WeightedSum(weights[..j], pastTau, nSpins, nGrid)
      invariant !needsKE ==> vt == variableTau
    {
      var weight := overlapEvecs[j][0] / norm;
      assert weights[..j + 1][..j] == weights[..j];
      vn := AccumulateChannels(vn, weight, pastN[j], nSpins, nGrid);
      if needsKE {
        vt := AccumulateChannels(vt, weight, pastTau[j], nSpins, nGrid);
      }
    }
    assert weights[..ndim] == weights;
  }

  /** The electronic variables after a full-window DIIS step: `variable_n` (and, when the
      functional needs it, `variable_tau`) becomes the weighted sum of its history. */
  function DiisMixed(e: ElecVars, mv: MixedVariable, needsKE: bool, ws: seq<real>,
                     pastN: seq<Collection>, pastTau: seq<Collection>,
                     nSpins: nat, nGrid: nat): ElecVars
    requires |ws| <= |pastN| && (needsKE ==> |ws| <= |pastTau|)
    requires forall j :: 0 <= j < |pastN| ==> Shaped(pastN[j], nSpins, nGrid)
    requires needsKE ==> forall j :: 0 <= j < |pastTau| ==> Shaped(pastTau[j], nSpins, nGrid)
  {
    var withN := WithVariableN(e, mv, WeightedSum(ws, pastN, nSpins, nGrid));
    if needsKE then WithVariableTau(withN, mv, WeightedSum(ws, pastTau, nSpins, nGrid)) else withN
  }

  // ---------------------------------------------------------------- the cycle

  /** `e.C` after the band minimizer has run for quantum numbers 0 .. k-1 in turn. */
  function BandsSolved(bandMinimize: (nat, ElecVars) -> Field, e: ElecVars, k: nat): (r: ElecVars)
    requires k <= |e.C|
    ensures |r.C| == |e.C| && r.(C := e.C) == e
    ensures forall q :: k <= q < |e.C| ==> r.C[q] == e.C[q]
  {
    if k == 0 then e
    else
      var before := BandsSolved(bandMinimize, e, k - 1);
      before.(C := before.C[k - 1 := bandMinimize(k - 1, before)])
  }

  /** The energy the pass numbered k compares against: the uninitialised `E` on the
      first pass, the previous pass's energy afterwards. */
  function PrevEnergy(energies: seq<real>, eInit: real, k: nat): real
    requires k <= |energies|
  {
    if k == 0 then eInit else energies[k - 1]
  }

  ghost predicate WithinThreshold(energies: seq<real>, eInit: real, k: nat, threshold: real)
    requires k < |energies|
  {
    Abs(energies[k] - PrevEnergy(energies, eInit, k)) < threshold
  }

  /** Appending the energy of a new pass leaves the verdicts of earlier passes alone. */
  lemma TraceExtension(energies: seq<real>, e: real, eInit: real, threshold: real)
    ensures forall k :: 0 <= k < |energies| ==>
      (WithinThreshold(energies + [e], eInit, k, threshold) <==> WithinThreshold(energies, eInit, k, threshold))
    ensures WithinThreshold(energies + [e], eInit, |energies|, threshold)
      <==> Abs(e - PrevEnergy(energies, eInit, |energies|)) < threshold
  {
  }

  /** A run none of whose passes met the threshold, extended by a pass that met it
      exactly when `done`: the last pass is then the only one that did. */
  lemma ThresholdExtension(energies: seq<real>, e: real, eInit: real, threshold: real, done: bool)
    requires forall k :: 0 <= k < |energies| ==> !WithinThreshold(energies, eInit, k, threshold)
    requires done <==> Abs(e - PrevEnergy(energies, eInit, |energies|)) < threshold
    ensures forall k :: 0 <= k < |energies| + 1 ==>
      (WithinThreshold(energies + [e], eInit, k, threshold) <==> done && k == |energies| + 1 - 1)
  {
    TraceExtension(energies, e, eInit, threshold);
  }

  /** One more pass of `count` band minimisations. */
  lemma OneMoreRound(passes: nat, count: nat)
    ensures (passes + 1) * count == passes * count + count
  {
  }

  function MaxPasses(nIterations: int): nat
  {
    if nIterations < 0 then 0 else nIterations
  }

  /** What the cycle carries from one pass to the next: the electronic variables and the
      histories of mixed variables, kinetic variables and residuals. */
  datatype Snapshot = Snapshot(vars: ElecVars, pastN: seq<Collection>, pastTau: seq<Collection>,
                               pastRes: seq<Collection>)

  class SCF {
    const rp: ResidualMinimizerParams
    const needsKEdensity: bool
    /** Default fraction of `mixPlain` (declared with the class, outside this model). */
    const mixFraction: real
    const nSpins: nat
    const nGrid: nat
    const nStates: nat
    /** Grid volume element used by `integral`. */
    const dV: real
    /** The `history x history` residual overlap matrix. */
    const overlap: array2<real>

    var eVars: ElecVars
    var pastVariablesN: seq<Collection>
    var pastVariablesTau: seq<Collection>
    var pastResiduals: seq<Collection>
    /** Quantum numbers handed to the band minimizer, in call order. */
    ghost var bandMinimizeCalls: seq<nat>

    ghost predicate ShapedVars(e: ElecVars)
    {
      && |e.C| == nStates
      && Shaped(e.n, nSpins, nGrid)
      && Shaped(e.Vscloc, nSpins, nGrid)
      && (needsKEdensity ==> Shaped(e.tau, nSpins, nGrid) && Shaped(e.Vtau, nSpins, nGrid))
    }

    ghost predicate ShapedHistory(h: seq<Collection>)
    {
      forall k :: 0 <= k < |h| ==> Shaped(h[k], nSpins, nGrid)
    }

    /** The leading `|rs| x |rs|` block of `overlap` is the overlap matrix of `rs`. */
    ghost predicate OverlapOf(rs: seq<Collection>)
      reads overlap
    {
      && 1 <= nSpins
      && overlap.Length0 == rp.history && overlap.Length1 == rp.history
      && ShapedHistory(rs)
      && |rs| <= rp.history
      && (forall i, j :: 0 <= i < |rs| && 0 <= j < |rs| ==>
            overlap[i, j] == OverlapResiduals(rs[i], rs[j], dV))
    }

    /** The leading block of `overlap` is the overlap matrix of the recorded residuals. */
    ghost predicate OverlapConsistent()
      reads this`pastResiduals, overlap
    {
      OverlapOf(pastResiduals)
    }

    /** The configuration the cycle needs: one or two spin channels, and a DIIS window
        of at least one entry. */
    ghost predicate Configured()
    {
      1 <= nSpins <= 2 && (rp.vectorExtrapolationMethod == DIIS ==> rp.history >= 1)
    }

    /** Object invariant. */
    ghost predicate Valid()
      reads this, overlap
    {
      && Configured()
      && ShapedVars(eVars)
      && ShapedHistory(pastVariablesN)
      && ShapedHistory(pastVariablesTau)
      && OverlapConsistent()
    }

    ghost function Snap(): Snapshot
      reads this`eVars, this`pastVariablesN, this`pastVariablesTau, this`pastResiduals
    {
      Snapshot(eVars, pastVariablesN, pastVariablesTau, pastResiduals)
    }

    /** Every vector a snapshot carries has the spin and grid shape of the system. */
    ghost predicate Shapes(s: Snapshot)
    {
      && ShapedVars(s.vars)
      && ShapedHistory(s.pastN)
      && ShapedHistory(s.pastTau)
      && ShapedHistory(s.pastRes)
    }

    /** How the histories relate at the start of a pass of `Minimize`. */
    ghost predicate Resting(s: Snapshot)
    {
      && Shapes(s)
      && (needsKEdensity ==> |s.pastTau| == |s.pastN|)
      && (!needsKEdensity ==> s.pastTau == [])
      && (rp.vectorExtrapolationMethod == PlainMixing ==> s.pastRes == [])
      && (rp.vectorExtrapolationMethod == DIIS ==> |s.pastRes| == |s.pastN|)
      && |s.pastN| <= Capacity()
    }

    /** How they relate once the pass has recorded its variable and is about to mix:
        under DIIS one residual fewer than recorded variables. */
    ghost predicate AwaitingMix(s: Snapshot)
    {
      && Shapes(s)
      && 1 <= |s.pastN| <= Capacity()
      && (needsKEdensity ==> |s.pastTau| == |s.pastN|)
      && (!needsKEdensity ==> s.pastTau == [])
      && (rp.vectorExtrapolationMethod == PlainMixing ==> s.pastRes == [])
      && (rp.vectorExtrapolationMethod == DIIS ==> |s.pastRes| + 1 == |s.pastN|)
    }

    ghost predicate HistoryInvariant()
      reads this
    {
      Resting(Snap())
    }

    /** The most history entries a pass can hold after recording its variable. */
    function Capacity(): nat
    {
      if rp.history == 0 then 1 else rp.history
    }

    /** The conditions the collaborators must meet: the spin and grid shapes of the
        variables never change, and the eigenvectors of a full-window overlap matrix have
        a column 0 that does not sum to zero. */
    ghost predicate Dependable(c: Collaborators)
    {
      && (forall e :: ShapedVars(e) ==> ShapedVars(c.elecEnergyAndGrad(e).1))
      && (forall e :: ShapedVars(e) ==> ShapedVars(c.edensityAndVscloc(e)))
      && (rp.vectorExtrapolationMethod == DIIS ==>
            forall m: seq<seq<real>> :: |m| == rp.history ==> UsableEigenvectors(c.diagonalize(m), rp.history))
    }

    constructor (rp: ResidualMinimizerParams, needsKEdensity: bool, mixFraction: real,
                 nSpins: nat, nGrid: nat, nStates: nat, dV: real, eVars: ElecVars)
      requires 1 <= nSpins <= 2
      requires rp.vectorExtrapolationMethod == DIIS ==> rp.history >= 1
      requires |eVars.C| == nStates
      requires Shaped(eVars.n, nSpins, nGrid) && Shaped(eVars.Vscloc, nSpins, nGrid)
      requires needsKEdensity ==> Shaped(eVars.tau, nSpins, nGrid) && Shaped(eVars.Vtau, nSpins, nGrid)
      ensures Valid() && HistoryInvariant() && fresh(overlap)
      ensures this.rp == rp && this.needsKEdensity == needsKEdensity && this.mixFraction == mixFraction
      ensures this.nSpins == nSpins && this.nGrid == nGrid && this.nStates == nStates && this.dV == dV
      ensures this.eVars == eVars
      ensures pastVariablesN == [] && pastVariablesTau == [] && pastResiduals == []
    {
      this.rp := rp;
      this.needsKEdensity := needsKEdensity;
      this.mixFraction := mixFraction;
      this.nSpins := nSpins;
      this.nGrid := nGrid;
      this.nStates := nStates;
      this.dV := dV;
      this.overlap := new real[rp.history, rp.history];
      this.eVars := eVars;
      pastVariablesN, pastVariablesTau, pastResiduals := [], [], [];
      bandMinimizeCalls := [];
    }

    /** The tau argument the source passes to `mixPlain`: the last recorded tau, which
        only exists when the functional needs the kinetic-energy density. */
    ghost function TauArg(pastTau: seq<Collection>): Option<Collection>
    {
      if needsKEdensity && |pastTau| > 0 then Some(Last(pastTau)) else None
    }

    /** The residual `variable_n - pastVariables_n.back()` of a snapshot. */
    ghost function ResidualOf(s: Snapshot): (r: Collection)
      requires ShapedVars(s.vars) && ShapedHistory(s.pastN) && |s.pastN| >= 1
      ensures Shaped(r, nSpins, nGrid)
    {
      AxpyC(-1.0, Last(s.pastN), VariableN(s.vars, rp.mixedVariable))
    }

    ghost function CurrentResidual(): Collection
      reads this, overlap
      requires Valid() && |pastVariablesN| >= 1
    {
      ResidualOf(Snap())
    }

    // ---------------------------------------------------------- one pass, on snapshots

    /** Lines 59-70 of `SCF::minimize`: when either history is full, clear it (the
        residuals only under DIIS, the kinetic variables only when the functional needs
        them); then record the current variables. */
    ghost function Cached(s: Snapshot): Snapshot
    {
      var full := |s.pastRes| >= rp.history || |s.pastN| >= rp.history;
      Snapshot(s.vars,
               (if full then [] else s.pastN) + [VariableN(s.vars, rp.mixedVariable)],
               if !needsKEdensity then s.pastTau
               else (if full then [] else s.pastTau) + [VariableTau(s.vars, rp.mixedVariable)],
               if full && rp.vectorExtrapolationMethod == DIIS then [] else s.pastRes)
    }

    /** Recording the variables turns the start-of-pass invariant into the one mixing
        expects, whatever the window size. */
    lemma CachedAwaitsMix(s: Snapshot)
      requires Resting(s)
      ensures AwaitingMix(Cached(s))
      ensures Cached(s).vars == s.vars
      ensures Last(Cached(s).pastN) == VariableN(s.vars, rp.mixedVariable)
    {
    }

    /** Lines 73-89 of `SCF::minimize`: the energy and the re-evaluated variables once
        the band minimizer has run over every quantum number of `s.vars`. */
    ghost function Evaluated(s: Snapshot, c: Collaborators): (real, ElecVars)
      requires ShapedVars(s.vars)
    {
      c.elecEnergyAndGrad(BandsSolved(c.bandMinimize, s.vars, nStates))
    }

    /** The snapshot after recording, solving and evaluating, before any mixing. */
    ghost function Solved(s: Snapshot, c: Collaborators): Snapshot
      requires ShapedVars(s.vars)
    {
      Cached(s).(vars := Evaluated(s, c).1)
    }

    lemma SolvedAwaitsMix(s: Snapshot, c: Collaborators)
      requires Resting(s) && Dependable(c)
      ensures AwaitingMix(Solved(s, c))
    {
      CachedAwaitsMix(s);
      var solved := BandsSolved(c.bandMinimize, s.vars, nStates);
      assert solved.n == s.vars.n && solved.tau == s.vars.tau;
      assert solved.Vscloc == s.vars.Vscloc && solved.Vtau == s.vars.Vtau;
    }

    /** The residual history after `mixDIIS` has recorded the current residual. */
    ghost function RecordedResiduals(s: Snapshot): seq<Collection>
      requires AwaitingMix(s)
    {
      if rp.vectorExtrapolationMethod == DIIS then s.pastRes + [ResidualOf(s)] else s.pastRes
    }

    /** What `mixPlain` or `mixDIIS` leaves in the electronic variables: plain mixing
        against the last recorded variable, under DIIS too while its residual window is
        not full, and the DIIS-weighted sum of the history once it is. */
    ghost function MixedVars(s: Snapshot, c: Collaborators): ElecVars
      requires Configured() && AwaitingMix(s) && Dependable(c)
    {
      var rs := RecordedResiduals(s);
      if rp.vectorExtrapolationMethod == PlainMixing || |rs| != rp.history then
        PlainMixed(s.vars, rp.mixedVariable, needsKEdensity, Last(s.pastN), TauArg(s.pastTau), mixFraction)
      else
        DiisMixed(s.vars, rp.mixedVariable, needsKEdensity, DiisWeights(c.diagonalize(Gram(rs, dV))),
                  s.pastN, s.pastTau, nSpins, nGrid)
    }

    /** Lines 94-106 of `SCF::minimize`: mix, recording the residual under DIIS, and in
        density mode recompute the local potential from the mixed density. */
    ghost function Mixed(s: Snapshot, c: Collaborators): Snapshot
      requires Configured() && AwaitingMix(s) && Dependable(c)
    {
      var m := MixedVars(s, c);
      Snapshot(if rp.mixedVariable == Density then c.edensityAndVscloc(m) else m,
               s.pastN, s.pastTau, RecordedResiduals(s))
    }

    /** A pass of `SCF::minimize` that does not converge: record, solve, evaluate, mix. */
    ghost function Next(s: Snapshot, c: Collaborators): Snapshot
      requires Configured() && Resting(s) && Dependable(c)
    {
      SolvedAwaitsMix(s, c);
      Mixed(Solved(s, c), c)
    }

    /** Mixing keeps the spin and grid shape of the electronic variables. */
    lemma MixedVarsShaped(s: Snapshot, c: Collaborators)
      requires Configured() && AwaitingMix(s) && Dependable(c)
      ensures ShapedVars(MixedVars(s, c))
      ensures MixedVars(s, c).C == s.vars.C
    {
    }

    /** Every pass that mixes leaves the histories related as the next pass expects. */
    lemma NextResting(s: Snapshot, c: Collaborators)
      requires Configured() && Resting(s) && Dependable(c)
      ensures Resting(Next(s, c))
      ensures |Next(s, c).pastN| >= 1
    {
      SolvedAwaitsMix(s, c);
      MixedVarsShaped(Solved(s, c), c);
    }

    /** `SCF::mixPlain`: channel by channel, `variable_n` becomes `f * variable_n +
        (1 - f) * prevN`; with a kinetic-energy functional, `tau` becomes
        `f * variable_tau + (1 - f) * prevTau`. */
    method MixPlain(prevN: Collection, prevTau: Option<Collection>, f: real)
      requires Valid()
      requires Shaped(prevN, nSpins, nGrid)
      requires needsKEdensity ==> prevTau.Some? && Shaped(prevTau.value, nSpins, nGrid)
      modifies this`eVars
      ensures Valid()
      ensures eVars == PlainMixed(old(eVars), rp.mixedVariable, needsKEdensity, prevN, prevTau, f)
    {
      var mv := rp.mixedVariable;
      ghost var v0 := VariableN(eVars, mv);
      var vn := VariableN(eVars, mv);
      var vt := VariableTau(eVars, mv);
      var tau := eVars.tau;
      for s := 0 to |eVars.n|
        invariant |vn| == nSpins
        invariant forall t :: 0 <= t < nSpins ==>
          vn[t] == if t < s then Mix(f, v0, prevN)[t] else v0[t]
        invariant needsKEdensity ==> |tau| == nSpins && forall t :: 0 <= t < nSpins ==>
          tau[t] == if t < s then Mix(f, vt, prevTau.value)[t] else old(eVars).tau[t]
        invariant !needsKEdensity ==> tau == old(eVars).tau
      {
        vn := vn[s := Add(Scale(f, vn[s]), Scale(1.0 - f, prevN[s]))];
        if needsKEdensity {
          tau := tau[s := Add(Scale(f, vt[s]), Scale(1.0 - f, prevTau.value[s]))];
        }
      }
      eVars := WithVariableN(eVars, mv, vn).(tau := tau);
    }

    /** The loop of lines 134-140 of `mixDIIS`: fill row and column `|rs| - 1` of the
        overlap matrix with the overlaps of the newest residual; nothing else is touched. */
    method FillOverlap(rs: seq<Collection>)
      requires 1 <= nSpins && overlap.Length0 == rp.history && overlap.Length1 == rp.history
      requires ShapedHistory(rs) && 1 <= |rs| <= rp.history
      requires OverlapOf(rs[..|rs| - 1])
      modifies overlap
      ensures OverlapOf(rs)
      ensures forall i, j ::
        0 <= i < rp.history && 0 <= j < rp.history && i != |rs| - 1 && j != |rs| - 1 ==>
        overlap[i, j] == old(overlap[i, j])
    {
      var last := |rs| - 1;
      for j := 0 to |rs|
        invariant forall a :: 0 <= a < j ==>
          overlap[a, last] == OverlapResiduals(rs[a], rs[last], dV) &&
          overlap[last, a] == OverlapResiduals(rs[a], rs[last], dV)
        invariant forall a, b ::
          0 <= a < rp.history && 0 <= b < rp.history && !((b == last && a < j) || (a == last && b < j)) ==>
          overlap[a, b] == old(overlap[a, b])
      {
        var tempOverlap := OverlapResiduals(rs[j], rs[last], dV);
        overlap[j, last] := tempOverlap;
        if j != last {
          overlap[last, j] := tempOverlap;
        }
      }
      forall i, k | 0 <= i < |rs| && 0 <= k < |rs|
        ensures overlap[i, k] == OverlapResiduals(rs[i], rs[k], dV)
      {
        if i == last && k < last {
          OverlapSymmetric(rs[k], rs[i], dV);
        } else if i < last && k < last {
          assert rs[i] == rs[..last][i] && rs[k] == rs[..last][k];
        }
      }
    }

    /** Lines 128-141 of `mixDIIS`: record the current residual and fill the new row and
        column of the overlap matrix. */
    method RecordResidual()
      requires Valid() && |pastVariablesN| >= 1 && |pastResiduals| < rp.history
      modifies this`pastResiduals, overlap
      ensures Valid()
      ensures pastResiduals == old(pastResiduals) + [old(CurrentResidual())]
      ensures forall i, j ::
        0 <= i < rp.history && 0 <= j < rp.history && i != |pastResiduals| - 1 && j != |pastResiduals| - 1 ==>
        overlap[i, j] == old(overlap[i, j])
    {
      var temp := AxpyC(-1.0, pastVariablesN[|pastVariablesN| - 1], VariableN(eVars, rp.mixedVariable));
      ghost var before := pastResiduals;
      pastResiduals := pastResiduals + [temp];
      assert pastResiduals[..|pastResiduals| - 1] == before;
      FillOverlap(pastResiduals);
    }

    /** Lines 143-186 of `mixDIIS`, reached once the window holds `history` residuals:
        diagonalise their overlap matrix and replace the variable (and the kinetic
        variable) by the DIIS-weighted sum of its history. */
    method ExtrapolateDIIS(diagonalize: seq<seq<real>> -> seq<seq<real>>)
      requires Valid() && |pastResiduals| == rp.history
      requires rp.history <= |pastVariablesN| && (needsKEdensity ==> rp.history <= |pastVariablesTau|)
      requires UsableEigenvectors(diagonalize(Gram(pastResiduals, dV)), rp.history)
      modifies this`eVars
      ensures Valid()
      ensures eVars == DiisMixed(old(eVars), rp.mixedVariable, needsKEdensity,
                                 DiisWeights(diagonalize(Gram(pastResiduals, dV))),
                                 pastVariablesN, pastVariablesTau, nSpins, nGrid)
    {
      var ndim := |pastResiduals|;
      var thisOverlap := Block(overlap, ndim);
      forall i | 0 <= i < ndim ensures thisOverlap[i] == Gram(pastResiduals, dV)[i] {
        assert forall k :: 0 <= k < ndim ==> thisOverlap[i][k] == Gram(pastResiduals, dV)[i][k];
      }
      assert thisOverlap == Gram(pastResiduals, dV);
      var overlapEvecs := diagonalize(thisOverlap);
      var vn, vt := DiisCombination(overlapEvecs, VariableN(eVars, rp.mixedVariable),
                                    VariableTau(eVars, rp.mixedVariable), pastVariablesN,
                                    pastVariablesTau, needsKEdensity, nSpins, nGrid);
      if needsKEdensity {
        eVars := WithVariableTau(WithVariableN(eVars, rp.mixedVariable, vn), rp.mixedVariable, vt);
      } else {
        eVars := WithVariableN(eVars, rp.mixedVariable, vn);
      }
    }

    /** `SCF::mixDIIS`. Records the residual and its overlaps; until the window holds
        `history` residuals it falls back to plain mixing against the last recorded
        variable; then it replaces the variable by the DIIS-weighted sum of its history. */
    method MixDIIS(diagonalize: seq<seq<real>> -> seq<seq<real>>)
      requires Valid()
      requires |pastVariablesN| >= 1 && |pastResiduals| < rp.history
      requires needsKEdensity ==> |pastVariablesTau| >= 1
      requires |pastResiduals| + 1 == rp.history ==>
        && rp.history <= |pastVariablesN|
        && (needsKEdensity ==> rp.history <= |pastVariablesTau|)
        && UsableEigenvectors(diagonalize(Gram(pastResiduals + [CurrentResidual()], dV)), rp.history)
      modifies this`pastResiduals, this`eVars, overlap
      ensures Valid()
      ensures pastResiduals == old(pastResiduals) + [old(CurrentResidual())]
      ensures forall i, j ::
        0 <= i < rp.history && 0 <= j < rp.history && i != |pastResiduals| - 1 && j != |pastResiduals| - 1 ==>
        overlap[i, j] == old(overlap[i, j])
      ensures |pastResiduals| != rp.history ==>
        eVars == PlainMixed(old(eVars), rp.mixedVariable, needsKEdensity,
                            Last(pastVariablesN), TauArg(pastVariablesTau), mixFraction)
      ensures |pastResiduals| == rp.history ==>
        && UsableEigenvectors(diagonalize(Gram(pastResiduals, dV)), rp.history)
        && eVars == DiisMixed(old(eVars), rp.mixedVariable, needsKEdensity,
                              DiisWeights(diagonalize(Gram(pastResiduals, dV))),
                              pastVariablesN, pastVariablesTau, nSpins, nGrid)
    {
      RecordResidual();
      if |pastResiduals| != rp.history {
        var prevTau := if needsKEdensity then Some(pastVariablesTau[|pastVariablesTau| - 1]) else None;
        MixPlain(pastVariablesN[|pastVariablesN| - 1], prevTau, mixFraction);
      } else {
        ExtrapolateDIIS(diagonalize);
      }
    }

    /** Lines 59-70 of `SCF::minimize`: clear the histories when either is full (the
        residuals only under DIIS, the kinetic variables only when the functional needs
        them), then record the current variables. */
    method CacheVariables()
      requires Valid()
      modifies this`pastVariablesN, this`pastVariablesTau, this`pastResiduals
      ensures Valid()
      ensures Snap() == Cached(old(Snap()))
      ensures 1 <= |pastVariablesN| <= Capacity()
    {
      if |pastResiduals| >= rp.history || |pastVariablesN| >= rp.history {
        pastVariablesN := [];
        if needsKEdensity {
          pastVariablesTau := [];
        }
        if rp.vectorExtrapolationMethod == DIIS {
          pastResiduals := [];
        }
      }
      pastVariablesN := pastVariablesN + [VariableN(eVars, rp.mixedVariable)];
      if needsKEdensity {
        pastVariablesTau := pastVariablesTau + [VariableTau(eVars, rp.mixedVariable)];
      }
    }

    /** Lines 73-80 of `SCF::minimize`: run the band minimizer for every quantum number in
        turn at the frozen Hamiltonian; only the wavefunctions change. */
    method SolveAtFixedHamiltonian(bandMinimize: (nat, ElecVars) -> Field)
      requires Valid()
      modifies this`eVars, this`bandMinimizeCalls
      ensures Valid()
      ensures eVars == BandsSolved(bandMinimize, old(eVars), nStates)
      ensures bandMinimizeCalls == old(bandMinimizeCalls) + seq(nStates, q => q)
    {
      for q := 0 to nStates
        invariant ShapedVars(eVars)
        invariant eVars == BandsSolved(bandMinimize, old(eVars), q)
        invariant bandMinimizeCalls == old(bandMinimizeCalls) + seq(q, k => k)
      {
        eVars := eVars.(C := eVars.C[q := bandMinimize(q, eVars)]);
        bandMinimizeCalls := bandMinimizeCalls + [q];
        assert seq(q + 1, k => k) == seq(q, k => k) + [q];
      }
    }

    /** The passes of a run, as `Minimize` reports them: the last pass starts from
        `Last(starts)` in a state where the start-of-pass invariant holds, its energy is
        the one evaluated from that start, it starts where the pass before it left off
        after mixing, and the passes before it form a run too. */
    ghost predicate Trace(starts: seq<Snapshot>, energies: seq<real>, c: Collaborators)
      decreases |starts|
    {
      && |starts| == |energies|
      && Configured()
      && Dependable(c)
      && (|starts| > 0 ==>
            var n := |starts| - 1;
            && Trace(starts[..n], energies[..n], c)
            && Resting(starts[n])
            && energies[n] == Evaluated(starts[n], c).0
            && (n > 0 ==> starts[n] == Next(starts[n - 1], c)))
    }

    lemma TraceExtend(starts: seq<Snapshot>, energies: seq<real>, s: Snapshot, e: real, c: Collaborators)
      requires Trace(starts, energies, c) && Resting(s) && e == Evaluated(s, c).0
      requires |starts| > 0 ==> s == Next(Last(starts), c)
      ensures Trace(starts + [s], energies + [e], c)
    {
      assert (starts + [s])[..|starts|] == starts;
      assert (energies + [e])[..|energies|] == energies;
    }

    /** A run whose passes are `starts` and `energies` and that left the solver in
        `final`: the solved state of its last pass when that pass `converged`, otherwise
        the state that pass mixed. */
    ghost predicate Ran(starts: seq<Snapshot>, energies: seq<real>, converged: bool, final: Snapshot,
                        c: Collaborators)
    {
      && Trace(starts, energies, c)
      && |starts| >= 1
      && Resting(Last(starts))
      && (if converged then final == Solved(Last(starts), c) else final == Next(Last(starts), c))
    }

    /** A run, pass by pass: every pass starts where the invariant holds, reports the
        energy evaluated from its start, and starts where the previous one left off. */
    lemma {:induction false} TracePasses(starts: seq<Snapshot>, energies: seq<real>, c: Collaborators)
      requires Trace(starts, energies, c)
      ensures |starts| == |energies|
      ensures forall k :: 0 <= k < |starts| ==>
        Resting(starts[k]) && energies[k] == Evaluated(starts[k], c).0
      ensures forall k :: 0 < k < |starts| ==> starts[k] == Next(starts[k - 1], c)
    {
      if |starts| > 0 {
        var n := |starts| - 1;
        TracePasses(starts[..n], energies[..n], c);
        assert forall k :: 0 <= k < n ==> starts[..n][k] == starts[k] && energies[..n][k] == energies[k];
      }
    }

    /** Lines 94-103 of `SCF::minimize`: mix with the configured method. */
    method MixVariables(collaborators: Collaborators)
      requires Valid() && Dependable(collaborators) && AwaitingMix(Snap())
      modifies this`eVars, this`pastResiduals, overlap
      ensures Valid()
      ensures eVars == MixedVars(old(Snap()), collaborators)
      ensures pastResiduals == RecordedResiduals(old(Snap()))
    {
      ghost var s := Snap();
      if rp.vectorExtrapolationMethod == PlainMixing {
        var prevTau := if needsKEdensity then Some(pastVariablesTau[|pastVariablesTau| - 1]) else None;
        MixPlain(pastVariablesN[|pastVariablesN| - 1], prevTau, mixFraction);
      } else {
        if |pastResiduals| + 1 == rp.history {
          ghost var m := Gram(pastResiduals + [CurrentResidual()], dV);
          assert |m| == rp.history;
        }
        MixDIIS(collaborators.diagonalize);
      }
    }

    /** Lines 94-106 of `SCF::minimize`: mix with the configured method and, in density
        mode, recompute the local potential from the mixed density. */
    method MixAndUpdatePotential(collaborators: Collaborators)
      requires Valid() && Dependable(collaborators) && AwaitingMix(Snap())
      modifies this`eVars, this`pastResiduals, overlap
      ensures Valid() && HistoryInvariant()
      ensures Snap() == Mixed(old(Snap()), collaborators)
    {
      ghost var s := Snap();
      MixVariables(collaborators);
      MixedVarsShaped(s, collaborators);
      if rp.mixedVariable == Density {
        eVars := collaborators.edensityAndVscloc(eVars);
      }
    }

    /** Lines 59-89 of `SCF::minimize`: record the variables, solve the bands and
        evaluate the energy of the new state. */
    method SolveAndEvaluate(collaborators: Collaborators) returns (E: real)
      requires Valid() && HistoryInvariant() && Dependable(collaborators)
      modifies this`eVars, this`pastVariablesN, this`pastVariablesTau, this`pastResiduals, this`bandMinimizeCalls
      ensures Valid() && AwaitingMix(Snap())
      ensures E == Evaluated(old(Snap()), collaborators).0
      ensures Snap() == Solved(old(Snap()), collaborators)
      ensures |bandMinimizeCalls| == |old(bandMinimizeCalls)| + nStates
    {
      ghost var s := Snap();
      CacheVariables();
      SolveAtFixedHamiltonian(collaborators.bandMinimize);
      var result := collaborators.elecEnergyAndGrad(eVars);
      E, eVars := result.0, result.1;
      SolvedAwaitsMix(s, collaborators);
    }

    /** One pass of the loop of `SCF::minimize`: record, solve and evaluate; unless the
        energy moved by less than the threshold since `Eprev`, mix and update. */
    method Pass(collaborators: Collaborators, Eprev: real) returns (E: real, done: bool)
      requires Valid() && HistoryInvariant() && Dependable(collaborators)
      modifies this`eVars, this`pastVariablesN, this`pastVariablesTau, this`pastResiduals
      modifies this`bandMinimizeCalls, overlap
      ensures Valid() && 1 <= |pastVariablesN| <= Capacity()
      ensures rp.vectorExtrapolationMethod == PlainMixing ==> pastResiduals == []
      ensures E == Evaluated(old(Snap()), collaborators).0
      ensures done <==> Abs(E - Eprev) < rp.energyDiffThreshold
      ensures done ==> Snap() == Solved(old(Snap()), collaborators)
      ensures !done ==> HistoryInvariant() && Snap() == Next(old(Snap()), collaborators)
      ensures |bandMinimizeCalls| == |old(bandMinimizeCalls)| + nStates
    {
      E := SolveAndEvaluate(collaborators);
      done := Abs(E - Eprev) < rp.energyDiffThreshold;
      if !done {
        MixAndUpdatePotential(collaborators);
      }
    }

    /** What the loop of `SCF::minimize` keeps after `passes` passes of a run that
        began in `initial` with `calls` band minimisations already made: the object
        invariant; `energies` and `starts` record every pass and `E` is the last energy;
        the passes before the last did not meet the threshold, and the last did exactly
        when the run `converged`; every pass ran the bands once per state; and the
        solver is in the state the last pass left it in. */
    ghost predicate Progress(c: Collaborators, eInit: real, E: real, passes: nat, converged: bool,
                             energies: seq<real>, starts: seq<Snapshot>, initial: Snapshot, calls: nat)
      reads this, overlap
    {
      && Valid()
      && |energies| == |starts| == passes <= MaxPasses(rp.nIterations)
      && (converged ==> passes >= 1)
      && E == PrevEnergy(energies, eInit, passes)
      && (forall k :: 0 <= k < passes ==>
            (WithinThreshold(energies, eInit, k, rp.energyDiffThreshold) <==> converged && k == passes - 1))
      && |bandMinimizeCalls| == calls + passes * nStates
      && (passes >= 1 ==> 1 <= |pastVariablesN| <= Capacity())
      && (rp.vectorExtrapolationMethod == PlainMixing ==> pastResiduals == [])
      && (if passes == 0 then Snap() == initial else starts[0] == initial)
      && (!converged ==> HistoryInvariant())
      && Trace(starts, energies, c)
      && (passes >= 1 ==> Ran(starts, energies, converged, Snap(), c))
    }

    /** The body of the loop of `SCF::minimize`: one more pass of a run, compared
        against the energy `E` of the pass before it. */
    method TracedPass(collaborators: Collaborators, eInit: real, E: real, passes: nat,
                      energies: seq<real>, ghost starts: seq<Snapshot>, ghost initial: Snapshot,
                      ghost calls: nat)
      returns (E': real, passes': nat, converged: bool, energies': seq<real>, ghost starts': seq<Snapshot>)
      requires Dependable(collaborators) && passes < MaxPasses(rp.nIterations)
      requires Progress(collaborators, eInit, E, passes, false, energies, starts, initial, calls)
      modifies this`eVars, this`pastVariablesN, this`pastVariablesTau, this`pastResiduals
      modifies this`bandMinimizeCalls, overlap
      ensures passes' == passes + 1
      ensures Progress(collaborators, eInit, E', passes', converged, energies', starts', initial, calls)
    {
      ghost var start := Snap();
      var done;
      E', done := Pass(collaborators, E);
      ThresholdExtension(energies, E', eInit, rp.energyDiffThreshold, done);
      TraceExtend(starts, energies, start, E', collaborators);
      assert Last(starts + [start]) == start;
      OneMoreRound(passes, nStates);
      passes', converged, energies', starts' := passes + 1, done, energies + [E'], starts + [start];
    }

    /** Lines 53-108 of `SCF::minimize`: the passes, from the current state on. Each
        records the variables, solves the bands, re-evaluates the energy, and stops when
        the energy moved by less than `energyDiffThreshold`; otherwise it mixes (and, in
        density mode, recomputes the local potential). `energies` is the energy of every
        pass, `starts` the snapshot each pass begins from, and `eInit` the value the
        uninitialised `E` holds on the first pass. */
    method RunPasses(collaborators: Collaborators, eInit: real)
      returns (passes: nat, converged: bool, energies: seq<real>, ghost starts: seq<Snapshot>)
      requires Valid() && HistoryInvariant() && Dependable(collaborators)
      modifies this`eVars, this`pastVariablesN, this`pastVariablesTau, this`pastResiduals
      modifies this`bandMinimizeCalls, overlap
      ensures Valid()
      ensures |energies| == |starts| == passes <= MaxPasses(rp.nIterations)
      ensures !converged ==> passes == MaxPasses(rp.nIterations)
      ensures converged ==> passes >= 1
      ensures forall k :: 0 <= k < passes ==>
        (WithinThreshold(energies, eInit, k, rp.energyDiffThreshold) <==> converged && k == passes - 1)
      ensures |bandMinimizeCalls| == |old(bandMinimizeCalls)| + passes * nStates
      ensures passes >= 1 ==> 1 <= |pastVariablesN| <= Capacity()
      ensures rp.vectorExtrapolationMethod == PlainMixing ==> pastResiduals == []
      ensures if passes == 0 then Snap() == old(Snap()) else starts[0] == old(Snap())
      ensures Trace(starts, energies, collaborators)
      ensures passes >= 1 ==> Ran(starts, energies, converged, Snap(), collaborators)
    {
      ghost var initial := Snap();
      ghost var calls := |bandMinimizeCalls|;
      var E := eInit;
      passes, converged, energies, starts := 0, false, [], [];
      var scfCounter := 0;
      while scfCounter < rp.nIterations
        invariant scfCounter == passes && !converged
        invariant Progress(collaborators, eInit, E, passes, converged, energies, starts, initial, calls)
      {
        E, passes, converged, energies, starts := TracedPass(collaborators, eInit, E, passes, energies, starts, initial, calls);
        if converged {
          break;
        }
        scfCounter := scfCounter + 1;
      }
    }

    /** `SCF::minimize`: one probe evaluation of the energy of the initial guess (its
        value is discarded), empty histories, then the passes of `RunPasses`. */
    method Minimize(collaborators: Collaborators, eInit: real)
      returns (passes: nat, converged: bool, energies: seq<real>, ghost starts: seq<Snapshot>)
      requires Valid()
      requires Dependable(collaborators)
      modifies this`eVars, this`pastVariablesN, this`pastVariablesTau, this`pastResiduals
      modifies this`bandMinimizeCalls, overlap
      ensures Valid()
      ensures |energies| == |starts| == passes <= MaxPasses(rp.nIterations)
      ensures !converged ==> passes == MaxPasses(rp.nIterations)
      ensures converged ==> passes >= 1
      ensures forall k :: 0 <= k < passes ==>
        (WithinThreshold(energies, eInit, k, rp.energyDiffThreshold) <==> converged && k == passes - 1)
      ensures |bandMinimizeCalls| == |old(bandMinimizeCalls)| + passes * nStates
      ensures passes >= 1 ==> 1 <= |pastVariablesN| <= Capacity()
      ensures rp.vectorExtrapolationMethod == PlainMixing ==> pastResiduals == []
      ensures var probe := Snapshot(collaborators.elecEnergyAndGrad(old(eVars)).1, [], [], []);
        if passes == 0 then Snap() == probe else starts[0] == probe
      ensures forall k :: 0 <= k < passes ==>
        Resting(starts[k]) && energies[k] == Evaluated(starts[k], collaborators).0
      ensures forall k :: 0 < k < passes ==> starts[k] == Next(starts[k - 1], collaborators)
      ensures passes >= 1 ==> Resting(starts[passes - 1])
      ensures converged ==> Snap() == Solved(starts[passes - 1], collaborators)
      ensures !converged && passes >= 1 ==> Snap() == Next(starts[passes - 1], collaborators)
    {
      eVars := collaborators.elecEnergyAndGrad(eVars).1;
      pastVariablesN, pastVariablesTau, pastResiduals := [], [], [];
      passes, converged, energies, starts := RunPasses(collaborators, eInit);
      TracePasses(starts, energies, collaborators);
    }
  }
}
