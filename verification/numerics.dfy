/**
 The small part of System.Numerics.Vector2 and System.Math that a Box2 relies on.
 Single-precision floats are idealised as mathematical reals, so subtraction is
 exact and there is no NaN, infinity or signed zero.
 */
module Numerics {

  /** A 2D vector with X and Y components. */
  datatype Vec2 = Vec2(x: real, y: real)

  const Origin: Vec2 := Vec2(0.0, 0.0)

  /** Math.Min on two floats. */
  function Min(a: real, b: real): (r: real)
    ensures r <= a && r <= b
    ensures r == a || r == b
  {
    if a <= b then a else b
  }

  /** Math.Max on two floats. */
  function Max(a: real, b: real): (r: real)
    ensures a <= r && b <= r
    ensures r == a || r == b
  {
    if a <= b then b else a
  }

  /** Component-wise vector addition (`u + v`). */
  function Add(u: Vec2, v: Vec2): Vec2 {
    Vec2(u.x + v.x, u.y + v.y)
  }

  /** Component-wise vector subtraction (`u - v`): the vector that takes `v` to `u`. */
  function Sub(u: Vec2, v: Vec2): (r: Vec2)
    ensures Add(v, r) == u
  {
    Vec2(u.x - v.x, u.y - v.y)
  }

  /** Vector2.Equals(Vector2): exact equality of both components. */
  function VecEquals(u: Vec2, v: Vec2): (r: bool)
    ensures r <==> u == v
  {
    u.x == v.x && u.y == v.y
  }
}
