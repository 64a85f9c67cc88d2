/**
 * The small part of nalgebra's 2- and 3-component points and vectors that the
 * core uses. Coordinates are `real`: the model does not follow IEEE `f32`
 * rounding.
 */
module Vectors {
  datatype Vec2 = Vec2(x: real, y: real) {
    function Add(o: Vec2): Vec2 { Vec2(x + o.x, y + o.y) }
    function Sub(o: Vec2): Vec2 { Vec2(x - o.x, y - o.y) }
    function Scale(k: real): Vec2 { Vec2(k * x, k * y) }
    /** Component-wise product. */
    function Mul(o: Vec2): Vec2 { Vec2(x * o.x, y * o.y) }
  }

  datatype Vec3 = Vec3(x: real, y: real, z: real)

  const Zero2: Vec2 := Vec2(0.0, 0.0)
  const Zero3: Vec3 := Vec3(0.0, 0.0, 0.0)

  function Dot(u: Vec2, v: Vec2): real { u.x * v.x + u.y * v.y }

  /** The z component of the 3-D cross product of `u` and `v`. */
  function Cross(u: Vec2, v: Vec2): real { u.x * v.y - u.y * v.x }

  function Abs(a: real): real { if a < 0.0 then -a else a }

  /** `f32::min` and `f32::max` on numbers (no NaN). */
  function Min(a: real, b: real): real { if a <= b then a else b }
  function Max(a: real, b: real): real { if a >= b then a else b }
}
