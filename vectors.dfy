/** The part of glm's vec3 arithmetic the core uses, over `real`. */
module Vectors {
  import opened Numerics

  datatype Vec3 = Vec3(x: real, y: real, z: real)

  const Zero: Vec3 := Vec3(0.0, 0.0, 0.0)

  function Add(a: Vec3, b: Vec3): Vec3 {
    Vec3(a.x + b.x, a.y + b.y, a.z + b.z)
  }

  function Sub(a: Vec3, b: Vec3): Vec3 {
    Vec3(a.x - b.x, a.y - b.y, a.z - b.z)
  }

  function Neg(a: Vec3): Vec3 {
    Vec3(-a.x, -a.y, -a.z)
  }

  function Scale(a: Vec3, s: real): Vec3 {
    Vec3(a.x * s, a.y * s, a.z * s)
  }

  function Dot(a: Vec3, b: Vec3): real {
    a.x * b.x + a.y * b.y + a.z * b.z
  }

  function Cross(a: Vec3, b: Vec3): Vec3 {
    Vec3(a.y * b.z - b.y * a.z, a.z * b.x - b.z * a.x, a.x * b.y - b.x * a.y)
  }

  /** glm::reflect(i, n): i - 2 dot(n, i) n. */
  function Reflect(i: Vec3, n: Vec3): Vec3 {
    Sub(i, Scale(n, Dot(n, i) * 2.0))
  }

  /** glm::normalize(v): v times the inverse square root of dot(v, v). */
  function Normalize(m: Libm, v: Vec3): Vec3 {
    Scale(v, m.div(1.0, m.sqrt(Dot(v, v))))
  }

  /** `v /= s` on a glm vector: component-wise division. */
  function DivScalar(m: Libm, v: Vec3, s: real): Vec3 {
    Vec3(m.div(v.x, s), m.div(v.y, s), m.div(v.z, s))
  }
}
