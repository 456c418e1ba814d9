/**
  Value types shared by both applications: the three-component vector that
  stands for `ofVec3f` (components as exact reals rather than 32-bit floats)
  and the RGBA colour that stands for `ofColor`.
 */
module Vectors {

  newtype byte = x: int | 0 <= x < 256

  /** `ofColor`: four 8-bit channels, copied but never computed with. */
  datatype Color = Color(r: byte, g: byte, b: byte, a: byte)

  /** `ofVec3f` with the arithmetic the particle engine uses. */
  datatype Vec3 = Vec3(x: real, y: real, z: real) {

    /** `u + v` and `u += v`, component-wise. */
    function Plus(v: Vec3): Vec3 {
      Vec3(x + v.x, y + v.y, z + v.z)
    }

    /** `u - v`, component-wise. */
    function Minus(v: Vec3): Vec3 {
      Vec3(x - v.x, y - v.y, z - v.z)
    }

    /** `u * k` for a scalar `k`. */
    function Scale(k: real): Vec3 {
      Vec3(x * k, y * k, z * k)
    }

    /** `u / k` for a scalar `k`, which must not be zero. */
    function Div(k: real): Vec3
      requires k != 0.0
    {
      Vec3(x / k, y / k, z / k)
    }
  }

  function Min(a: real, b: real): real {
    if a <= b then a else b
  }

  function Max(a: real, b: real): real {
    if a <= b then b else a
  }

  /** `v` lies in the closed interval spanned by `a` and `b`, whichever is larger. */
  predicate Between(v: real, a: real, b: real) {
    Min(a, b) <= v <= Max(a, b)
  }

  /** Every component of `v` lies between the matching components of `a` and `b`. */
  predicate InBox(v: Vec3, a: Vec3, b: Vec3) {
    Between(v.x, a.x, b.x) && Between(v.y, a.y, b.y) && Between(v.z, a.z, b.z)
  }

  /** `v` lies within `center ± half` on every axis (the box `ofRandom` samples per axis). */
  predicate InRange(v: Vec3, center: Vec3, half: Vec3) {
    InBox(v, center.Minus(half), center.Plus(half))
  }
}
