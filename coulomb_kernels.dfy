/** Index arithmetic of `multRealKernel_calc` and `multTransformedKernel_calc`: a
    reciprocal-space grid point `iG` of a grid of sample counts `S` is mapped to a slot
    of a kernel array, and one element of the data array is multiplied by that slot. */
module CoulombKernels {
  import opened LinearAlgebra

  function Abs(x: int): nat
  {
    if x < 0 then -x else x
  }

  /** C++ `a % b` on `int`: truncates toward zero, so the remainder takes the sign of
      `a`. (Dafny's `%` is Euclidean and never negative.) */
  function TruncRem(a: int, b: int): (r: int)
    requires b != 0
    ensures Abs(r) < Abs(b)
    ensures a >= 0 ==> r >= 0
    ensures a < 0 ==> r <= 0
  {
    var m := Abs(a) % Abs(b);
    if a >= 0 then m else -m
  }

  /** C++ `a / b` on `int`: the quotient rounded toward zero. */
  function TruncDiv(a: int, b: int): (q: int)
    requires b != 0
    ensures Abs(q) == Abs(a) / Abs(b)
    ensures (a >= 0) == (b > 0) ==> q >= 0
    ensures (a >= 0) != (b > 0) ==> q <= 0
  {
    var q := Abs(a) / Abs(b);
    assert q >= 0 by {
      QuotientNonNegative(Abs(a), Abs(b));
    }
    if (a >= 0) == (b > 0) then q else -q
  }

  lemma QuotientNonNegative(x: nat, y: nat)
    requires y > 0
    ensures x / y >= 0
  {
  }

  /** The two C++ operators fit together: `(a / b) * b + a % b == a`. */
  lemma TruncDivRem(a: int, b: int)
    requires b != 0
    ensures TruncDiv(a, b) * b + TruncRem(a, b) == a
  {
    var q, m := Abs(a) / Abs(b), Abs(a) % Abs(b);
    assert q * Abs(b) + m == Abs(a);
    if a >= 0 && b > 0 {
    } else if a >= 0 {
      assert TruncDiv(a, b) * b == -q * b == q * Abs(b);
    } else if b > 0 {
      assert TruncDiv(a, b) * b == -q * b == -(q * Abs(b));
    } else {
      assert TruncDiv(a, b) * b == q * b == -(q * Abs(b));
    }
  }

  /** One step of the reduction loop: `x % s`, then `+ s` if that is negative. */
  function Wrap(x: int, s: int): (r: int)
    requires s != 0
    ensures s > 0 ==> 0 <= r < s
  {
    var r := TruncRem(x, s);
    if r < 0 then r + s else r
  }

  /** A whole number `d >= 1` of copies of `s >= 0` is at least `s`. */
  lemma {:induction false} AtLeastOnce(d: int, s: int)
    requires d >= 1 && s >= 0
    ensures d * s >= s
    decreases d
  {
    if d > 1 {
      AtLeastOnce(d - 1, s);
      assert d * s == (d - 1) * s + s;
    }
  }

  /** Multiplying by a non-negative `c` keeps `a <= b`. */
  lemma MulMonotone(c: int, a: int, b: int)
    requires c >= 0 && a <= b
    ensures c * a <= c * b
  {
    if a < b && c > 0 {
      AtLeastOnce(b - a, c);
      assert c * b - c * a == (b - a) * c;
    }
  }

  /** A decomposition `a == q * s + r` with `0 <= r < s` is the Euclidean one. */
  lemma EuclideanUnique(a: int, s: int, q: int, r: int)
    requires s > 0 && 0 <= r < s && a == q * s + r
    ensures a % s == r
  {
    var q0, r0 := a / s, a % s;
    assert a == q0 * s + r0;
    var d := q - q0;
    assert d * s == r0 - r;
    if d >= 1 {
      AtLeastOnce(d, s);
    } else if d <= -1 {
      assert (-d) * s == r - r0;
      AtLeastOnce(-d, s);
    }
  }

  /** For a positive count the wrapped value is the Euclidean residue: it lies in
      `[0, s)` and differs from `x` by a multiple of `s`. */
  lemma WrapIsResidue(x: int, s: int)
    requires s > 0
    ensures Wrap(x, s) == x % s
    ensures 0 <= Wrap(x, s) < s
  {
    if x < 0 {
      var q, m := (-x) / s, (-x) % s;
      assert -x == q * s + m;
      if m == 0 {
        EuclideanUnique(x, s, -q, 0);
      } else {
        assert x == (-q - 1) * s + (s - m);
        EuclideanUnique(x, s, -q - 1, s - m);
      }
    }
  }

  /** Shifting by a whole number of periods does not move the wrapped value. */
  lemma WrapPeriodic(x: int, s: int, n: int)
    requires s > 0
    ensures Wrap(x + n * s, s) == Wrap(x, s)
  {
    WrapIsResidue(x, s);
    WrapIsResidue(x + n * s, s);
    var q, r := x / s, x % s;
    assert x == q * s + r;
    assert x + n * s == (q + n) * s + r;
    EuclideanUnique(x + n * s, s, q + n, r);
  }

  /** `iGkernel` after the loop: every component wrapped by its own count. */
  function Reduced(v: Vector3, S: Vector3): Vector3
    requires S[0] != 0 && S[1] != 0 && S[2] != 0
  {
    Vec(Wrap(v[0], S[0]), Wrap(v[1], S[1]), Wrap(v[2], S[2]))
  }

  /** Row-major slot `w[2] + S[2] * (w[1] + S[1] * w[0])` of a full `S[0] x S[1] x S[2]`
      kernel. */
  function FlatIndex(w: Vector3, S: Vector3): int
  {
    w[2] + S[2] * (w[1] + S[1] * w[0])
  }

  predicate InGrid(w: Vector3, S: Vector3)
  {
    0 <= w[0] < S[0] && 0 <= w[1] < S[1] && 0 <= w[2] < S[2]
  }

  /** A point inside the grid has a slot inside the kernel array. */
  lemma FlatIndexBounds(w: Vector3, S: Vector3)
    requires InGrid(w, S)
    ensures 0 <= FlatIndex(w, S) < S[0] * S[1] * S[2]
  {
    var row := w[1] + S[1] * w[0];
    MulMonotone(S[1], 0, w[0]);
    MulMonotone(S[1], w[0], S[0] - 1);
    assert 0 <= row <= S[0] * S[1] - 1;
    MulMonotone(S[2], 0, row);
    MulMonotone(S[2], row, S[0] * S[1] - 1);
    assert S[2] * (S[0] * S[1] - 1) == S[0] * S[1] * S[2] - S[2];
  }

  /** Two points inside the grid share a slot exactly when they are the same point. */
  lemma FlatIndexInjective(w: Vector3, w': Vector3, S: Vector3)
    requires InGrid(w, S) && InGrid(w', S)
    ensures FlatIndex(w, S) == FlatIndex(w', S) <==> w == w'
  {
    if FlatIndex(w, S) == FlatIndex(w', S) {
      var row, row' := w[1] + S[1] * w[0], w'[1] + S[1] * w'[0];
      DigitsUnique(row, w[2], row', w'[2], S[2]);
      DigitsUnique(w[0], w[1], w'[0], w'[1], S[1]);
      assert w == Vec(w[0], w[1], w[2]);
    }
  }

  /** Base-`s` digits are unique: `hi * s + lo` determines `hi` and `lo` when `lo < s`. */
  lemma DigitsUnique(hi: int, lo: int, hi': int, lo': int, s: int)
    requires 0 <= lo < s && 0 <= lo' < s
    requires lo + s * hi == lo' + s * hi'
    ensures hi == hi' && lo == lo'
  {
    if hi > hi' {
      assert (hi - hi') * s == lo' - lo;
      AtLeastOnce(hi - hi', s);
    } else if hi < hi' {
      assert (hi' - hi) * s == lo - lo';
      AtLeastOnce(hi' - hi, s);
    }
  }

  /** The slot `multTransformedKernel_calc` reads for grid point `iG`. */
  function TransformedIndex(iG: Vector3, S: Vector3, offset: Vector3, rot: Matrix3): int
    requires S[0] != 0 && S[1] != 0 && S[2] != 0
  {
    FlatIndex(Reduced(MatVec(rot, Sub(iG, offset)), S), S)
  }

  predicate PositiveCounts(S: Vector3)
  {
    S[0] > 0 && S[1] > 0 && S[2] > 0
  }

  /** With positive counts every component is reduced into `[0, S[k])`, so the slot lies in
      `[0, S[0] * S[1] * S[2])`. */
  lemma TransformedIndexBounds(iG: Vector3, S: Vector3, offset: Vector3, rot: Matrix3)
    requires PositiveCounts(S)
    ensures InGrid(Reduced(MatVec(rot, Sub(iG, offset)), S), S)
    ensures 0 <= TransformedIndex(iG, S, offset, rot) < S[0] * S[1] * S[2]
  {
    var v := MatVec(rot, Sub(iG, offset));
    WrapIsResidue(v[0], S[0]);
    WrapIsResidue(v[1], S[1]);
    WrapIsResidue(v[2], S[2]);
    FlatIndexBounds(Reduced(v, S), S);
  }

  /** Each reduced component is the residue of `rot * (iG - offset)` modulo its count. */
  lemma TransformedComponentsAreResidues(iG: Vector3, S: Vector3, offset: Vector3, rot: Matrix3)
    requires PositiveCounts(S)
    ensures forall k :: 0 <= k < 3 ==>
      Reduced(MatVec(rot, Sub(iG, offset)), S)[k] == MatVec(rot, Sub(iG, offset))[k] % S[k]
  {
    var v := MatVec(rot, Sub(iG, offset));
    WrapIsResidue(v[0], S[0]);
    WrapIsResidue(v[1], S[1]);
    WrapIsResidue(v[2], S[2]);
  }

  /** The kernel is periodic on the grid: two points whose transformed coordinates differ
      by whole multiples `n` of the counts read the same slot. */
  lemma TransformedIndexPeriodic(iG: Vector3, iG': Vector3, S: Vector3, offset: Vector3, rot: Matrix3,
                                 n: Vector3)
    requires PositiveCounts(S)
    requires forall k :: 0 <= k < 3 ==>
      MatVec(rot, Sub(iG', offset))[k] == MatVec(rot, Sub(iG, offset))[k] + n[k] * S[k]
    ensures TransformedIndex(iG', S, offset, rot) == TransformedIndex(iG, S, offset, rot)
  {
    var v, v' := MatVec(rot, Sub(iG, offset)), MatVec(rot, Sub(iG', offset));
    WrapPeriodic(v[0], S[0], n[0]);
    WrapPeriodic(v[1], S[1], n[1]);
    WrapPeriodic(v[2], S[2], n[2]);
    assert Reduced(v', S) == Reduced(v, S);
  }

  /** `multTransformedKernel_calc`: reduce `rot * (iG - offset)` component by component,
      then scale `data[i]` by the kernel value at the resulting slot. */
  method MultTransformedKernel(i: nat, iG: Vector3, S: Vector3, kernel: array<real>,
                               data: array<Complex>, offset: Vector3, rot: Matrix3)
    requires S[0] != 0 && S[1] != 0 && S[2] != 0
    requires i < data.Length
    requires 0 <= TransformedIndex(iG, S, offset, rot) < kernel.Length
    modifies data
    ensures data[..] ==
      old(data[..])[i := ScaleComplex(kernel[TransformedIndex(iG, S, offset, rot)], old(data[i]))]
  {
    var iGkernel := MatVec(rot, Sub(iG, offset));
    ghost var v := iGkernel;
    for k := 0 to 3
      invariant forall m :: 0 <= m < 3 ==> iGkernel[m] == if m < k then Wrap(v[m], S[m]) else v[m]
    {
      var r := TruncRem(iGkernel[k], S[k]);
      iGkernel := iGkernel[k := r];
      if iGkernel[k] < 0 {
        iGkernel := iGkernel[k := iGkernel[k] + S[k]];
      }
    }
    assert iGkernel == Reduced(v, S);
    var iReal := iGkernel[2] + S[2] * (iGkernel[1] + S[1] * iGkernel[0]);
    data[i] := ScaleComplex(kernel[iReal], data[i]);
  }

  /** The folded point of `multRealKernel_calc`: negate the whole vector when its z
      component is negative (the kernel is inversion symmetric), then lift negative x
      and y components by one period. */
  function RealFold(iG: Vector3, S: Vector3): (w: Vector3)
    ensures w[2] == Abs(iG[2])
  {
    var g := if iG[2] < 0 then Neg(iG) else iG;
    Vec(if g[0] < 0 then g[0] + S[0] else g[0], if g[1] < 0 then g[1] + S[1] else g[1], g[2])
  }

  /** Slot `w[2] + (1 + S[2] / 2) * (w[1] + S[1] * w[0])` of the half-grid real kernel,
      which stores only `z` in `[0, S[2] / 2]`. */
  function RealKernelIndex(iG: Vector3, S: Vector3): int
  {
    var w := RealFold(iG, S);
    w[2] + (1 + TruncDiv(S[2], 2)) * (w[1] + S[1] * w[0])
  }

  /** `iG` and `-iG` read the same slot of a real kernel, unless `iG` lies in the `z = 0`
      plane, where no fold happens. */
  lemma RealKernelInversionSymmetric(iG: Vector3, S: Vector3)
    requires iG[2] != 0
    ensures RealKernelIndex(Neg(iG), S) == RealKernelIndex(iG, S)
    ensures RealFold(Neg(iG), S) == RealFold(iG, S)
  {
  }

  /** The grid points `multRealKernel` visits: `|iG[0]| < S[0]`, `|iG[1]| < S[1]` and
      `|iG[2]| <= S[2] / 2`. */
  predicate RealKernelDomain(iG: Vector3, S: Vector3)
  {
    && PositiveCounts(S)
    && Abs(iG[0]) < S[0] && Abs(iG[1]) < S[1] && Abs(iG[2]) <= S[2] / 2
  }

  /** On that domain the folded point lies in the half grid and the slot lies in
      `[0, S[0] * S[1] * (1 + S[2] / 2))`. */
  lemma RealKernelIndexBounds(iG: Vector3, S: Vector3)
    requires RealKernelDomain(iG, S)
    ensures InGrid(RealFold(iG, S), Vec(S[0], S[1], 1 + S[2] / 2))
    ensures 0 <= RealKernelIndex(iG, S) < S[0] * S[1] * (1 + S[2] / 2)
  {
    var w := RealFold(iG, S);
    var half := Vec(S[0], S[1], 1 + S[2] / 2);
    assert TruncDiv(S[2], 2) == S[2] / 2;
    FlatIndexBounds(w, half);
    assert RealKernelIndex(iG, S) == FlatIndex(w, half);
    assert S[0] * S[1] * (1 + S[2] / 2) == half[0] * half[1] * half[2];
  }

  /** `multRealKernel_calc`: scale `data[i]` by the real kernel at the folded slot. */
  method MultRealKernel(i: nat, iG: Vector3, S: Vector3, kernel: array<real>, data: array<Complex>)
    requires i < data.Length
    requires 0 <= RealKernelIndex(iG, S) < kernel.Length
    modifies data
    ensures data[..] == old(data[..])[i := ScaleComplex(kernel[RealKernelIndex(iG, S)], old(data[i]))]
  {
    var iGreal := iG;
    if iGreal[2] < 0 {
      iGreal := Neg(iGreal);
    }
    if iGreal[1] < 0 {
      iGreal := iGreal[1 := iGreal[1] + S[1]];
    }
    if iGreal[0] < 0 {
      iGreal := iGreal[0 := iGreal[0] + S[0]];
    }
    assert iGreal == RealFold(iG, S);
    var iReal := iGreal[2] + (1 + TruncDiv(S[2], 2)) * (iGreal[1] + S[1] * iGreal[0]);
    data[i] := ScaleComplex(kernel[iReal], data[i]);
  }
}
