/** Real-space scalar fields and the per-spin collections of them (DataRptrCollection)
    that the SCF cycle mixes. A field is its grid samples; arithmetic is pointwise, and the
    grid integral is the volume element times the sum of the samples. */
module ScalarFields {

  /** One scalar field sampled on the real-space grid. */
  type Field = seq<real>

  /** One field per spin channel. */
  type Collection = seq<Field>

  /** Sum of the samples, accumulated from the front as the source's loops do. */
  function Sum(s: seq<real>): real
  {
    if |s| == 0 then 0.0 else Sum(s[..|s| - 1]) + s[|s| - 1]
  }

  function Zero(nGrid: nat): Field
  {
    seq(nGrid, i => 0.0)
  }

  /** `k * f` */
  function Scale(k: real, f: Field): Field
  {
    seq(|f|, i requires 0 <= i < |f| => k * f[i])
  }

  /** `a + b` on fields of one grid. */
  function Add(a: Field, b: Field): Field
    requires |a| == |b|
  {
    seq(|a|, i requires 0 <= i < |a| => a[i] + b[i])
  }

  /** Pointwise product `a * b`, the integrand of an overlap. */
  function Mul(a: Field, b: Field): Field
    requires |a| == |b|
  {
    seq(|a|, i requires 0 <= i < |a| => a[i] * b[i])
  }

  /** `integral(f)`: the grid sum weighted by the volume element dV. */
  function Integral(f: Field, dV: real): real
  {
    dV * Sum(f)
  }

  /** Every spin channel of `c` is a field on the same grid of `nGrid` points. */
  predicate Shaped(c: Collection, nSpins: nat, nGrid: nat)
  {
    |c| == nSpins && forall s :: 0 <= s < |c| ==> |c[s]| == nGrid
  }

  predicate SameShape(a: Collection, b: Collection)
  {
    |a| == |b| && forall s :: 0 <= s < |a| ==> |a[s]| == |b[s]|
  }

  function ZeroCollection(nSpins: nat, nGrid: nat): Collection
  {
    seq(nSpins, s => Zero(nGrid))
  }

  /** `a + b` channel by channel. */
  function AddC(a: Collection, b: Collection): Collection
    requires SameShape(a, b)
  {
    seq(|a|, s requires 0 <= s < |a| => Add(a[s], b[s]))
  }

  /** `k * c` channel by channel. */
  function ScaleC(k: real, c: Collection): Collection
  {
    seq(|c|, s requires 0 <= s < |c| => Scale(k, c[s]))
  }

  /** `axpy(alpha, x, y)` on collections: the value `y + alpha * x`. */
  function AxpyC(alpha: real, x: Collection, y: Collection): (r: Collection)
    requires SameShape(x, y)
    ensures SameShape(r, y)
  {
    seq(|y|, s requires 0 <= s < |y| => Add(y[s], Scale(alpha, x[s])))
  }

  /** Summing `k * s[i]` gives `k` times the sum. */
  lemma {:induction false} SumScale(k: real, s: seq<real>)
    ensures Sum(Scale(k, s)) == k * Sum(s)
  {
    if |s| > 0 {
      var n := |s| - 1;
      assert forall i :: 0 <= i < n ==> Scale(k, s)[..n][i] == Scale(k, s[..n])[i];
      assert Scale(k, s)[..n] == Scale(k, s[..n]);
      SumScale(k, s[..n]);
    }
  }

  /** The sum of a pointwise sum is the sum of the sums. */
  lemma {:induction false} SumAdd(a: seq<real>, b: seq<real>)
    requires |a| == |b|
    ensures Sum(Add(a, b)) == Sum(a) + Sum(b)
  {
    if |a| > 0 {
      var n := |a| - 1;
      assert forall i :: 0 <= i < n ==> Add(a, b)[..n][i] == Add(a[..n], b[..n])[i];
      assert Add(a, b)[..n] == Add(a[..n], b[..n]);
      SumAdd(a[..n], b[..n]);
    }
  }

  /** A sum of non-negative entries is non-negative. */
  lemma {:induction false} SumNonNegative(s: seq<real>)
    requires forall i :: 0 <= i < |s| ==> s[i] >= 0.0
    ensures Sum(s) >= 0.0
  {
    if |s| > 0 {
      SumNonNegative(s[..|s| - 1]);
    }
  }

  /** Dividing every entry by a non-zero `d` divides the sum by `d`. */
  lemma {:induction false} SumDivided(s: seq<real>, d: real)
    requires d != 0.0
    ensures Sum(seq(|s|, j requires 0 <= j < |s| => s[j] / d)) == Sum(s) / d
  {
    var q := seq(|s|, j requires 0 <= j < |s| => s[j] / d);
    if |s| > 0 {
      var n := |s| - 1;
      assert q[..n] == seq(|s[..n]|, j requires 0 <= j < |s[..n]| => s[..n][j] / d);
      SumDivided(s[..n], d);
      assert Sum(q) == Sum(s[..n]) / d + s[n] / d;
    }
  }

  /** A sum of squares is never negative. */
  lemma {:induction false} SumOfSquaresNonNegative(f: Field)
    ensures Sum(Mul(f, f)) >= 0.0
  {
    if |f| > 0 {
      var n := |f| - 1;
      assert forall i :: 0 <= i < n ==> Mul(f, f)[..n][i] == Mul(f[..n], f[..n])[i];
      assert Mul(f, f)[..n] == Mul(f[..n], f[..n]);
      SumOfSquaresNonNegative(f[..n]);
      assert Mul(f, f)[n] == f[n] * f[n];
    }
  }

  /** The pointwise product commutes, so does the integral of it. */
  lemma IntegralOfProductSymmetric(a: Field, b: Field, dV: real)
    requires |a| == |b|
    ensures Integral(Mul(a, b), dV) == Integral(Mul(b, a), dV)
  {
    assert Mul(a, b) == Mul(b, a);
  }
}
