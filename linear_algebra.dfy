/** The small value types the kernel and Wannier code share: integer 3-vectors and 3x3
    matrices (`vector3<int>`, `matrix3<int>`) and complex numbers. */
module LinearAlgebra {

  /** `vector3<int>`, components indexed 0..2. */
  type Vector3 = v: seq<int> | |v| == 3 witness Origin

  const Origin: seq<int> := [0, 0, 0]

  /** `matrix3<int>`, stored row by row. */
  type Matrix3 = m: seq<Vector3> | |m| == 3 witness ZeroMatrix

  const ZeroMatrix: seq<Vector3> := [Origin, Origin, Origin]

  function Vec(x: int, y: int, z: int): Vector3
  {
    [x, y, z]
  }

  function Add(a: Vector3, b: Vector3): Vector3
  {
    Vec(a[0] + b[0], a[1] + b[1], a[2] + b[2])
  }

  function Sub(a: Vector3, b: Vector3): Vector3
  {
    Vec(a[0] - b[0], a[1] - b[1], a[2] - b[2])
  }

  /** Unary `-v`. */
  function Neg(v: Vector3): Vector3
  {
    Vec(-v[0], -v[1], -v[2])
  }

  function Dot3(a: Vector3, b: Vector3): int
  {
    a[0] * b[0] + a[1] * b[1] + a[2] * b[2]
  }

  /** Matrix times column vector, `m * v`. */
  function MatVec(m: Matrix3, v: Vector3): Vector3
  {
    Vec(Dot3(m[0], v), Dot3(m[1], v), Dot3(m[2], v))
  }

  function Column(m: Matrix3, j: int): Vector3
    requires 0 <= j < 3
  {
    Vec(m[0][j], m[1][j], m[2][j])
  }

  /** Row vector times matrix, `v * m`. */
  function VecMat(v: Vector3, m: Matrix3): Vector3
  {
    Vec(Dot3(v, Column(m, 0)), Dot3(v, Column(m, 1)), Dot3(v, Column(m, 2)))
  }

  /** `~m`. */
  function Transpose(m: Matrix3): Matrix3
  {
    [Column(m, 0), Column(m, 1), Column(m, 2)]
  }

  /** `m * k` for an integer scalar `k`. */
  function ScaleMat(m: Matrix3, k: int): Matrix3
  {
    [Vec(k * m[0][0], k * m[0][1], k * m[0][2]),
     Vec(k * m[1][0], k * m[1][1], k * m[1][2]),
     Vec(k * m[2][0], k * m[2][1], k * m[2][2])]
  }

  datatype Complex = Complex(re: real, im: real)

  /** `z *= k` for a real `k`. */
  function ScaleComplex(k: real, z: Complex): Complex
  {
    Complex(k * z.re, k * z.im)
  }

  /** Real part of `conj(a) * b`. */
  function ReConjMul(a: Complex, b: Complex): real
  {
    a.re * b.re + a.im * b.im
  }
}
