/** Plane and space vectors as the game uses them (positions of plots, units
    and the mouse cursor). Distances are compared through their squares so
    that no square root is needed. */
module Geometry {

  datatype Vec2 = Vec2(x: real, y: real)

  datatype Vec3 = Vec3(x: real, y: real, z: real)

  /** Drops the depth coordinate, as `Vec3::truncate` does. */
  function Truncate(v: Vec3): Vec2
  {
    Vec2(v.x, v.y)
  }

  function Abs(r: real): (a: real)
    ensures a >= 0.0 && (a == r || a == -r)
  {
    if r < 0.0 then -r else r
  }

  /** Square of the Euclidean distance between two points of the plane. */
  function DistSq(a: Vec2, b: Vec2): (d: real)
    ensures d >= 0.0
    ensures a == b ==> d == 0.0
  {
    var dx, dy := a.x - b.x, a.y - b.y;
    assert dx * dx >= 0.0 && dy * dy >= 0.0;
    dx * dx + dy * dy
  }

  /** `distance(a, b) <= r` for a radius `r >= 0`, stated without a square root. */
  predicate WithinRadius(a: Vec2, b: Vec2, r: real)
    requires r >= 0.0
  {
    DistSq(a, b) <= r * r
  }
}
