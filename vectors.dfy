/**
 * Stand-ins for the host library's UT_Vector3 and UT_Matrix3 over the reals.
 * Floating-point rounding is not modelled.
 */
module Vectors {

  datatype Vec3 = Vec3(x: real, y: real, z: real)

  /** A 3x3 matrix given by its rows. */
  datatype Mat3 = Mat3(r0: Vec3, r1: Vec3, r2: Vec3)

  const Zero: Vec3 := Vec3(0.0, 0.0, 0.0)
  const Up: Vec3 := Vec3(0.0, 1.0, 0.0)

  function Add(a: Vec3, b: Vec3): Vec3 {
    Vec3(a.x + b.x, a.y + b.y, a.z + b.z)
  }

  function Minus(a: Vec3, b: Vec3): Vec3 {
    Vec3(a.x - b.x, a.y - b.y, a.z - b.z)
  }

  function Scale(s: real, v: Vec3): Vec3 {
    Vec3(s * v.x, s * v.y, s * v.z)
  }

  /** A vector divided by a non-zero scalar, component by component. */
  function Div(v: Vec3, s: real): Vec3
    requires s != 0.0
  {
    Vec3(v.x / s, v.y / s, v.z / s)
  }

  /** UT_Vector3::length2: the squared Euclidean length. */
  function LengthSquared(v: Vec3): (r: real)
    ensures r >= 0.0
  {
    v.x * v.x + v.y * v.y + v.z * v.z
  }

  /** rowVecMult(v, m): the row vector v times the matrix m. */
  function RowVecMult(v: Vec3, m: Mat3): Vec3 {
    Add(Add(Scale(v.x, m.r0), Scale(v.y, m.r1)), Scale(v.z, m.r2))
  }
}
