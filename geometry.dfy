/** The plane the simulation lives in: points, squared distances, clamping, and
    the axis-aligned rectangles used for obstacles and agent bounding boxes.
    All three versions of the simulator share this vocabulary; coordinates are
    modelled as mathematical reals (floating-point rounding is not modelled). */
module Geometry {

  datatype Vec2 = Vec2(x: real, y: real)

  const Zero: Vec2 := Vec2(0.0, 0.0)

  function Add(a: Vec2, b: Vec2): Vec2 {
    Vec2(a.x + b.x, a.y + b.y)
  }

  function Sub(a: Vec2, b: Vec2): Vec2 {
    Vec2(a.x - b.x, a.y - b.y)
  }

  function Scale(v: Vec2, k: real): Vec2 {
    Vec2(v.x * k, v.y * k)
  }

  /** Squared length (pygame `length_squared`, the web port's `magSq`). */
  function MagSq(v: Vec2): (m: real)
    ensures m >= 0.0
  {
    SquareNonNegative(v.x);
    SquareNonNegative(v.y);
    v.x * v.x + v.y * v.y
  }

  lemma SquareNonNegative(r: real)
    ensures r * r >= 0.0
  {
    if r < 0.0 {
      assert r * r == (-r) * (-r);
    }
  }

  /** Squared Euclidean distance, the only distance the simulation compares. */
  function DistSq(a: Vec2, b: Vec2): (d: real)
    ensures d >= 0.0
  {
    MagSq(Sub(a, b))
  }

  function Min(a: real, b: real): real { if a <= b then a else b }

  function Max(a: real, b: real): real { if a >= b then a else b }

  /** `max(lo, min(value, hi))`: the nearest point of [lo, hi] to value when
      lo <= hi, and lo when the interval is empty. */
  function Clamp(value: real, lo: real, hi: real): (r: real)
    ensures lo <= hi ==> lo <= r <= hi
    ensures lo <= value <= hi ==> r == value
    ensures value < lo ==> r == lo
    ensures lo <= hi && hi < value ==> r == hi
    ensures hi < lo ==> r == lo
  {
    Max(lo, Min(value, hi))
  }

  /** The screen box an agent of the given radius is confined to. */
  ghost predicate InBox(p: Vec2, radius: real, width: real, height: real) {
    radius <= p.x <= width - radius && radius <= p.y <= height - radius
  }

  /** Clamps each coordinate into [radius, width - radius] x [radius, height - radius]. */
  function ClampToBox(p: Vec2, radius: real, width: real, height: real): (q: Vec2)
    ensures 2.0 * radius <= width && 2.0 * radius <= height ==> InBox(q, radius, width, height)
    ensures InBox(p, radius, width, height) ==> q == p
  {
    Vec2(Clamp(p.x, radius, width - radius), Clamp(p.y, radius, height - radius))
  }

  /** An axis-aligned rectangle given by its top-left corner and its size. */
  datatype Rect = Rect(left: real, top: real, width: real, height: real)

  /** The square of side 2r centred on a point: an agent's or food item's rect. */
  function BoxAround(center: Vec2, radius: real): Rect {
    Rect(center.x - radius, center.y - radius, 2.0 * radius, 2.0 * radius)
  }

  /** Rectangle overlap in the sense of pygame's `colliderect` for rectangles of
      positive size: the interiors intersect, touching edges do not count. */
  predicate Overlap(a: Rect, b: Rect) {
    a.left < b.left + b.width && b.left < a.left + a.width &&
    a.top < b.top + b.height && b.top < a.top + a.height
  }
}

/** The conventional optional value. */
module Options {
  datatype Option<T> = None | Some(value: T)
}
