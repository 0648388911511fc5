/** The bookkeeping of `WannierMinimizer`: the vector-space operations on a gradient
    (one matrix per k-point) that the generic minimizer needs, the order on k-points
    that keys the cache of transformed G-vector index arrays, and that cache. */
module Wannier {
  import opened LinearAlgebra
  import ScalarFields

  // ---------------------------------------------------------------- matrices

  /** A `matrix`, entries in storage order; the row and column counts play no part in the
      operations modelled here. */
  type Matrix = seq<Complex>

  /** The entry-wise contributions `Re(conj(a[k]) * b[k])` to `dotc(a, b).real()`. */
  function ConjTerms(a: Matrix, b: Matrix): (t: seq<real>)
    requires |a| == |b|
    ensures |t| == |a|
  {
    seq(|a|, k requires 0 <= k < |a| => ReConjMul(a[k], b[k]))
  }

  /** `dotc(a, b).real()`: the real part of the sum of `conj(a[k]) * b[k]`. */
  function ReDotc(a: Matrix, b: Matrix): real
    requires |a| == |b|
  {
    ScalarFields.Sum(ConjTerms(a, b))
  }

  /** `a *= alpha` */
  function MatScale(alpha: real, a: Matrix): (r: Matrix)
    ensures |r| == |a|
  {
    seq(|a|, k requires 0 <= k < |a| => ScaleComplex(alpha, a[k]))
  }

  /** `axpy(alpha, x, y)` on one matrix: the value `y + alpha * x`. */
  function MatAxpy(alpha: real, x: Matrix, y: Matrix): (r: Matrix)
    requires |x| == |y|
    ensures |r| == |y|
  {
    seq(|y|, k requires 0 <= k < |y| => Complex(y[k].re + alpha * x[k].re, y[k].im + alpha * x[k].im))
  }

  lemma ReDotcSymmetric(a: Matrix, b: Matrix)
    requires |a| == |b|
    ensures ReDotc(a, b) == ReDotc(b, a)
  {
    assert ConjTerms(a, b) == ConjTerms(b, a);
  }

  lemma ReDotcSelfNonNegative(a: Matrix)
    ensures ReDotc(a, a) >= 0.0
  {
    forall k | 0 <= k < |a|
      ensures ConjTerms(a, a)[k] >= 0.0
    {
      assert a[k].re * a[k].re >= 0.0 && a[k].im * a[k].im >= 0.0;
    }
    ScalarFields.SumNonNegative(ConjTerms(a, a));
  }

  /** One entry of `dotc` under `axpy`. */
  lemma ReConjMulAxpy(c: Complex, alpha: real, a: Complex, b: Complex)
    ensures ReConjMul(c, Complex(b.re + alpha * a.re, b.im + alpha * a.im))
         == ReConjMul(c, b) + alpha * ReConjMul(c, a)
  {
  }

  /** One entry of `dotc` under `*=`. */
  lemma ReConjMulScale(alpha: real, a: Complex, b: Complex)
    ensures ReConjMul(ScaleComplex(alpha, a), b) == alpha * ReConjMul(a, b)
  {
  }

  /** `dotc` is linear in its second argument under `axpy`. */
  lemma ReDotcAxpy(z: Matrix, alpha: real, x: Matrix, y: Matrix)
    requires |z| == |x| == |y|
    ensures ReDotc(z, MatAxpy(alpha, x, y)) == ReDotc(z, y) + alpha * ReDotc(z, x)
  {
    var tz, ty, tx := ConjTerms(z, MatAxpy(alpha, x, y)), ConjTerms(z, y), ConjTerms(z, x);
    forall k | 0 <= k < |z|
      ensures tz[k] == ScalarFields.Add(ty, ScalarFields.Scale(alpha, tx))[k]
    {
      ReConjMulAxpy(z[k], alpha, x[k], y[k]);
    }
    assert tz == ScalarFields.Add(ty, ScalarFields.Scale(alpha, tx));
    ScalarFields.SumAdd(ty, ScalarFields.Scale(alpha, tx));
    ScalarFields.SumScale(alpha, tx);
  }

  /** `dotc` is homogeneous in its first argument under `*=`. */
  lemma ReDotcScale(alpha: real, x: Matrix, y: Matrix)
    requires |x| == |y|
    ensures ReDotc(MatScale(alpha, x), y) == alpha * ReDotc(x, y)
  {
    var ts, t := ConjTerms(MatScale(alpha, x), y), ConjTerms(x, y);
    forall k | 0 <= k < |x|
      ensures ts[k] == ScalarFields.Scale(alpha, t)[k]
    {
      ReConjMulScale(alpha, x[k], y[k]);
    }
    assert ts == ScalarFields.Scale(alpha, t);
    ScalarFields.SumScale(alpha, t);
  }

  // ---------------------------------------------------------------- gradients

  /** Two gradients with one matrix per k-point, pairwise of equal size. */
  predicate Conformal(x: seq<Matrix>, y: seq<Matrix>)
  {
    |x| == |y| && forall i :: 0 <= i < |x| ==> |x[i]| == |y[i]|
  }

  /** The per-k-point contributions `Re dotc(x[i], y[i])` to `dot(x, y)`. */
  function DotTerms(x: seq<Matrix>, y: seq<Matrix>): (t: seq<real>)
    requires Conformal(x, y)
    ensures |t| == |x|
  {
    seq(|x|, i requires 0 <= i < |x| => ReDotc(x[i], y[i]))
  }

  /** `dot(x, y)`: the sum over k-points of `Re dotc(x[i], y[i])`. */
  function GradDot(x: seq<Matrix>, y: seq<Matrix>): real
    requires Conformal(x, y)
  {
    ScalarFields.Sum(DotTerms(x, y))
  }

  /** The value of `x *= alpha`. */
  function GradScale(alpha: real, x: seq<Matrix>): (r: seq<Matrix>)
    ensures Conformal(r, x)
  {
    seq(|x|, i requires 0 <= i < |x| => MatScale(alpha, x[i]))
  }

  /** The value of `y` after `axpy(alpha, x, y)`. */
  function GradAxpy(alpha: real, x: seq<Matrix>, y: seq<Matrix>): (r: seq<Matrix>)
    requires Conformal(x, y)
    ensures Conformal(r, y)
  {
    seq(|y|, i requires 0 <= i < |y| => MatAxpy(alpha, x[i], y[i]))
  }

  lemma GradDotSymmetric(x: seq<Matrix>, y: seq<Matrix>)
    requires Conformal(x, y)
    ensures GradDot(x, y) == GradDot(y, x)
  {
    forall i | 0 <= i < |x|
      ensures DotTerms(x, y)[i] == DotTerms(y, x)[i]
    {
      ReDotcSymmetric(x[i], y[i]);
    }
    assert DotTerms(x, y) == DotTerms(y, x);
  }

  /** `dot(x, x)` is never negative, as a squared norm must be. */
  lemma GradDotSelfNonNegative(x: seq<Matrix>)
    ensures GradDot(x, x) >= 0.0
  {
    forall i | 0 <= i < |x|
      ensures DotTerms(x, x)[i] >= 0.0
    {
      ReDotcSelfNonNegative(x[i]);
    }
    ScalarFields.SumNonNegative(DotTerms(x, x));
  }

  /** Under `axpy` each k-point's contribution to `dot(z, .)` moves by `alpha` times its
      contribution to `dot(z, x)`. */
  lemma DotTermsAxpy(z: seq<Matrix>, alpha: real, x: seq<Matrix>, y: seq<Matrix>)
    requires Conformal(z, x) && Conformal(x, y)
    ensures DotTerms(z, GradAxpy(alpha, x, y))
         == ScalarFields.Add(DotTerms(z, y), ScalarFields.Scale(alpha, DotTerms(z, x)))
  {
    var r := GradAxpy(alpha, x, y);
    var tz, sum := DotTerms(z, r), ScalarFields.Add(DotTerms(z, y), ScalarFields.Scale(alpha, DotTerms(z, x)));
    forall i | 0 <= i < |z|
      ensures tz[i] == sum[i]
    {
      assert r[i] == MatAxpy(alpha, x[i], y[i]);
      ReDotcAxpy(z[i], alpha, x[i], y[i]);
    }
  }

  /** `axpy` and `dot` agree: `dot(z, y + alpha x) == dot(z, y) + alpha dot(z, x)`. */
  lemma GradDotAxpy(z: seq<Matrix>, alpha: real, x: seq<Matrix>, y: seq<Matrix>)
    requires Conformal(z, x) && Conformal(x, y)
    ensures GradDot(z, GradAxpy(alpha, x, y)) == GradDot(z, y) + alpha * GradDot(z, x)
  {
    var ty, tx := DotTerms(z, y), DotTerms(z, x);
    assert GradDot(z, GradAxpy(alpha, x, y)) == ScalarFields.Sum(ty) + alpha * ScalarFields.Sum(tx) by {
      DotTermsAxpy(z, alpha, x, y);
      ScalarFields.SumAdd(ty, ScalarFields.Scale(alpha, tx));
      ScalarFields.SumScale(alpha, tx);
    }
  }

  /** `*=` and `dot` agree: `dot(alpha x, y) == alpha dot(x, y)`. */
  lemma GradDotScale(alpha: real, x: seq<Matrix>, y: seq<Matrix>)
    requires Conformal(x, y)
    ensures GradDot(GradScale(alpha, x), y) == alpha * GradDot(x, y)
  {
    var ts, t := DotTerms(GradScale(alpha, x), y), DotTerms(x, y);
    forall i | 0 <= i < |x|
      ensures ts[i] == ScalarFields.Scale(alpha, t)[i]
    {
      assert GradScale(alpha, x)[i] == MatScale(alpha, x[i]);
      ReDotcScale(alpha, x[i], y[i]);
    }
    assert ts == ScalarFields.Scale(alpha, t);
    ScalarFields.SumScale(alpha, t);
  }

  /** `clone`: a new gradient holding the same matrices. */
  method Clone(grad: array<Matrix>) returns (copy: array<Matrix>)
    ensures fresh(copy)
    ensures copy[..] == grad[..]
  {
    copy := new Matrix[grad.Length](i requires 0 <= i < grad.Length reads grad => grad[i]);
  }

  /** `dot`: accumulate `Re dotc(x[i], y[i])` over the k-points. */
  method Dot(x: array<Matrix>, y: array<Matrix>) returns (result: real)
    requires Conformal(x[..], y[..])
    ensures result == GradDot(x[..], y[..])
  {
    result := 0.0;
    for i := 0 to x.Length
      invariant result == GradDot(x[..i], y[..i])
    {
      assert DotTerms(x[..i + 1], y[..i + 1])[..i] == DotTerms(x[..i], y[..i]);
      result := result + ReDotc(x[i], y[i]);
    }
    assert x[..] == x[..x.Length] && y[..] == y[..y.Length];
  }

  /** `x *= alpha`: scale every matrix in place. */
  method ScaleInPlace(x: array<Matrix>, alpha: real)
    modifies x
    ensures x[..] == GradScale(alpha, old(x[..]))
  {
    for i := 0 to x.Length
      invariant forall j :: 0 <= j < x.Length ==> x[j] == if j < i then MatScale(alpha, old(x[j])) else old(x[j])
    {
      x[i] := MatScale(alpha, x[i]);
    }
  }

  /** `axpy(alpha, x, y)`: `y[i] += alpha * x[i]` for every k-point. Entry `i` of `x` is
      read before entry `i` of `y` is written, so the result is the same when `x` and `y`
      are one array. */
  method Axpy(alpha: real, x: array<Matrix>, y: array<Matrix>)
    requires Conformal(x[..], y[..])
    modifies y
    ensures y[..] == GradAxpy(alpha, old(x[..]), old(y[..]))
    ensures x != y ==> x[..] == old(x[..])
  {
    for i := 0 to x.Length
      invariant forall j :: 0 <= j < y.Length ==>
        y[j] == if j < i then MatAxpy(alpha, old(x[j]), old(y[j])) else old(y[j])
      invariant forall j :: i <= j < x.Length ==> x[j] == old(x[j])
      invariant x != y ==> x[..] == old(x[..])
    {
      y[i] := MatAxpy(alpha, x[i], y[i]);
    }
  }

  // ---------------------------------------------------------------- k-points

  /** `WannierMinimizer::Kpoint`: a k-vector with the reduced k-point `q` it is the image
      of, the symmetry `iRot`, the sign `invert` and the reciprocal lattice `offset`. */
  datatype Kpoint = Kpoint(k: seq<real>, q: int, iRot: int, invert: int, offset: Vector3)

  /** The fields that take part in comparisons; `k` does not. */
  datatype KpointKey = KpointKey(q: int, iRot: int, invert: int, offset: Vector3)

  function Key(p: Kpoint): KpointKey
  {
    KpointKey(p.q, p.iRot, p.invert, p.offset)
  }

  /** `Kpoint::operator<`, with `offsetLess` standing for `vector3<int>`'s `<`. */
  function KpointLess(a: Kpoint, b: Kpoint, offsetLess: (Vector3, Vector3) -> bool): bool
  {
    if a.q != b.q then a.q < b.q
    else if a.iRot != b.iRot then a.iRot < b.iRot
    else if a.invert != b.invert then a.invert < b.invert
    else if a.offset != b.offset then offsetLess(a.offset, b.offset)
    else false
  }

  /** `Kpoint::operator==` */
  function KpointEqual(a: Kpoint, b: Kpoint): bool
  {
    if a.q != b.q then false
    else if a.iRot != b.iRot then false
    else if a.invert != b.invert then false
    else if a.offset != b.offset then false
    else true
  }

  /** A strict total order on offsets, as the standard containers require of `<`. */
  ghost predicate StrictTotalOrder(lt: (Vector3, Vector3) -> bool)
  {
    && (forall a :: !lt(a, a))
    && (forall a, b, c :: lt(a, b) && lt(b, c) ==> lt(a, c))
    && (forall a, b :: a != b ==> lt(a, b) || lt(b, a))
  }

  lemma KpointEqualIffSameKey(a: Kpoint, b: Kpoint)
    ensures KpointEqual(a, b) <==> Key(a) == Key(b)
  {
  }

  /** With every field equal, neither k-point precedes the other; in particular `<` is
      irreflexive whatever order the offsets use. */
  lemma KpointEqualNotLess(a: Kpoint, b: Kpoint, offsetLess: (Vector3, Vector3) -> bool)
    requires KpointEqual(a, b)
    ensures !KpointLess(a, b, offsetLess) && !KpointLess(b, a, offsetLess)
  {
  }

  lemma KpointLessTransitive(a: Kpoint, b: Kpoint, c: Kpoint, offsetLess: (Vector3, Vector3) -> bool)
    requires StrictTotalOrder(offsetLess)
    requires KpointLess(a, b, offsetLess) && KpointLess(b, c, offsetLess)
    ensures KpointLess(a, c, offsetLess)
  {
  }

  /** `<` is a strict weak order whose equivalence is equality of the compared fields: two
      k-points are interchangeable as keys of `indexMap` exactly when their keys agree. */
  lemma KpointEquivalentIffSameKey(a: Kpoint, b: Kpoint, offsetLess: (Vector3, Vector3) -> bool)
    requires StrictTotalOrder(offsetLess)
    ensures !KpointLess(a, b, offsetLess) && !KpointLess(b, a, offsetLess) <==> Key(a) == Key(b)
    ensures KpointLess(a, b, offsetLess) ==> !KpointLess(b, a, offsetLess)
  {
  }

  // ---------------------------------------------------------------- index cache

  /** The G-vectors of the basis at one reduced k-point; `nbasis` is their count. */
  datatype Basis = Basis(iGarr: seq<Vector3>)

  /** `mRot`: the transposed symmetry matrix times the inversion sign. */
  function RotationFor(sym: seq<Matrix3>, iRot: int, invert: int): Matrix3
    requires 0 <= iRot < |sym|
  {
    ScaleMat(Transpose(sym[iRot]), invert)
  }

  /** `iGrot`: a basis G-vector carried to the k-point's image and shifted by its offset. */
  function RotatedG(mRot: Matrix3, iG: Vector3, offset: Vector3): Vector3
  {
    Sub(MatVec(mRot, iG), offset)
  }

  /** The sign `invert` carries through: the rotation for `-1` sends every G-vector to
      the negative of its image under the rotation for `+1`. */
  lemma RotationForInverted(sym: seq<Matrix3>, iRot: int, iG: Vector3)
    requires 0 <= iRot < |sym|
    ensures MatVec(RotationFor(sym, iRot, -1), iG) == Neg(MatVec(RotationFor(sym, iRot, 1), iG))
  {
    var m := Transpose(sym[iRot]);
    assert ScaleMat(m, 1) == m;
    forall r | 0 <= r < 3
      ensures Dot3(ScaleMat(m, -1)[r], iG) == -Dot3(m[r], iG)
    {
    }
  }

  /** `WannierMinimizer::Index`: the transformed index array of one k-point, and of the
      supercell when wavefunctions are saved. */
  class Index {
    const nIndices: nat
    const data: array<int>
    const dataSuper: array?<int>

    constructor (nIndices: nat, needSuper: bool)
      ensures this.nIndices == nIndices && data.Length == nIndices && fresh(data)
      ensures needSuper <==> dataSuper != null
      ensures dataSuper != null ==> fresh(dataSuper) && dataSuper.Length == nIndices && dataSuper != data
    {
      this.nIndices := nIndices;
      data := new int[nIndices];
      if needSuper {
        dataSuper := new int[nIndices];
      } else {
        dataSuper := null;
      }
    }
  }

  /** The loop of `addIndex`: carry every basis G-vector to the k-point's image with
      `mRot`, shift it by `offset`, and store its full-grid index (and, when the index has
      a supercell array, its supercell index). */
  method FillIndex(index: Index, iGarr: seq<Vector3>, mRot: Matrix3, offset: Vector3, ksuper: Vector3,
                   super: Matrix3, fullGindex: Vector3 -> int, fullGindexSuper: Vector3 -> int)
    requires index.nIndices == |iGarr| == index.data.Length
    requires index.dataSuper != null ==> index.dataSuper.Length == |iGarr| && index.dataSuper != index.data
    modifies index.data, index.dataSuper
    ensures forall j :: 0 <= j < |iGarr| ==> index.data[j] == fullGindex(RotatedG(mRot, iGarr[j], offset))
    ensures index.dataSuper != null ==> forall j :: 0 <= j < |iGarr| ==>
      index.dataSuper[j] == fullGindexSuper(Add(ksuper, VecMat(RotatedG(mRot, iGarr[j], offset), super)))
  {
    for j := 0 to index.nIndices
      invariant forall m :: 0 <= m < j ==> index.data[m] == fullGindex(RotatedG(mRot, iGarr[m], offset))
      invariant index.dataSuper != null ==> forall m :: 0 <= m < j ==>
        index.dataSuper[m] == fullGindexSuper(Add(ksuper, VecMat(RotatedG(mRot, iGarr[m], offset), super)))
    {
      var iGrot := RotatedG(mRot, iGarr[j], offset);
      index.data[j] := fullGindex(iGrot);
      if index.dataSuper != null {
        index.dataSuper[j] := fullGindexSuper(Add(ksuper, VecMat(iGrot, super)));
      }
    }
  }

  /** One entry of `kMesh`: the k-point, the Hermitian generator `B` the minimizer steps
      and the unitary `V` computed from it. */
  datatype KMeshEntry = KMeshEntry(point: Kpoint, B: Matrix, V: Matrix)

  function Generators(mesh: seq<KMeshEntry>): (r: seq<Matrix>)
    ensures |r| == |mesh|
  {
    seq(|mesh|, i requires 0 <= i < |mesh| => mesh[i].B)
  }

  class WannierMinimizer {
    /** The symmetry matrices `sym`. */
    const sym: seq<Matrix3>
    /** `wannier.saveWfns` */
    const saveWfns: bool
    /** The supercell matrix `super`. */
    const super: Matrix3
    /** `e.basis`, one per reduced k-point. */
    const bases: seq<Basis>
    const kMesh: array<KMeshEntry>
    var indexMap: map<KpointKey, Index>

    constructor (sym: seq<Matrix3>, saveWfns: bool, super: Matrix3, bases: seq<Basis>, mesh: seq<KMeshEntry>)
      ensures this.sym == sym && this.saveWfns == saveWfns && this.super == super && this.bases == bases
      ensures fresh(kMesh) && kMesh[..] == mesh
      ensures indexMap == map[]
    {
      this.sym := sym;
      this.saveWfns := saveWfns;
      this.super := super;
      this.bases := bases;
      kMesh := new KMeshEntry[|mesh|](i requires 0 <= i < |mesh| => mesh[i]);
      indexMap := map[];
    }

    /** `index` holds the transformed index arrays of `kpoint`: `data[j]` is the full-grid
        index of the j-th basis G-vector carried to the k-point's image, and, when
        wavefunctions are saved, `dataSuper[j]` its supercell index. */
    ghost predicate BuiltFor(index: Index, kpoint: Kpoint, ksuper: Vector3,
                             fullGindex: Vector3 -> int, fullGindexSuper: Vector3 -> int)
      requires 0 <= kpoint.q < |bases| && 0 <= kpoint.iRot < |sym|
      reads index.data, index.dataSuper
    {
      var iGarr := bases[kpoint.q].iGarr;
      var mRot := RotationFor(sym, kpoint.iRot, kpoint.invert);
      && index.nIndices == |iGarr| == index.data.Length
      && (index.dataSuper != null <==> saveWfns)
      && (forall j :: 0 <= j < |iGarr| ==> index.data[j] == fullGindex(RotatedG(mRot, iGarr[j], kpoint.offset)))
      && (index.dataSuper != null ==>
            && index.dataSuper.Length == |iGarr|
            && forall j :: 0 <= j < |iGarr| ==>
                 index.dataSuper[j] == fullGindexSuper(Add(ksuper, VecMat(RotatedG(mRot, iGarr[j], kpoint.offset), super))))
    }

    /** `addIndex`: compute and cache the index arrays of `kpoint` unless an equivalent
        k-point is cached already. `ksuper` is the k-point in supercell coordinates,
        rounded to integers; `fullGindex` and `fullGindexSuper` are the grids' index
        maps. */
    method AddIndex(kpoint: Kpoint, ksuper: Vector3,
                    fullGindex: Vector3 -> int, fullGindexSuper: Vector3 -> int)
      requires 0 <= kpoint.q < |bases| && 0 <= kpoint.iRot < |sym|
      modifies this`indexMap
      ensures Key(kpoint) in old(indexMap) ==> indexMap == old(indexMap)
      ensures Key(kpoint) !in old(indexMap) ==>
        && Key(kpoint) in indexMap
        && indexMap == old(indexMap)[Key(kpoint) := indexMap[Key(kpoint)]]
        && fresh(indexMap[Key(kpoint)].data)
        && BuiltFor(indexMap[Key(kpoint)], kpoint, ksuper, fullGindex, fullGindexSuper)
    {
      if Key(kpoint) in indexMap {
        return;
      }
      var iGarr := bases[kpoint.q].iGarr;
      var index := new Index(|iGarr|, saveWfns);
      FillIndex(index, iGarr, RotationFor(sym, kpoint.iRot, kpoint.invert), kpoint.offset, ksuper, super,
                fullGindex, fullGindexSuper);
      indexMap := indexMap[Key(kpoint) := index];
    }

    /** `WannierMinimizer::step`: `kMesh[i].B += alpha * grad[i]` for every k-point; nothing
        else in the mesh changes. */
    method Step(grad: array<Matrix>, alpha: real)
      requires Conformal(grad[..], Generators(kMesh[..]))
      modifies kMesh
      ensures Generators(kMesh[..]) == GradAxpy(alpha, grad[..], old(Generators(kMesh[..])))
      ensures forall i :: 0 <= i < kMesh.Length ==> kMesh[i] == old(kMesh[i]).(B := kMesh[i].B)
    {
      for i := 0 to kMesh.Length
        invariant forall j :: 0 <= j < kMesh.Length ==>
          kMesh[j] == if j < i then old(kMesh[j]).(B := MatAxpy(alpha, grad[j], old(kMesh[j].B))) else old(kMesh[j])
      {
        kMesh[i] := kMesh[i].(B := MatAxpy(alpha, grad[i], kMesh[i].B));
      }
      assert forall j :: 0 <= j < kMesh.Length ==> Generators(kMesh[..])[j] == GradAxpy(alpha, grad[..], old(Generators(kMesh[..])))[j];
    }
  }
}
