/** The web port's mutable `Vec2` class and its axis-aligned `Obstacle`.
    A `Vec2` object is updated in place by `set`, `add`, `sub`, `mult`,
    `div` and `normalize`; its static `sub` and `distSq` are the value
    operations of the shared geometry. */
module WebVectors {
  import G = Geometry

  class Vec2 {
    var x: real
    var y: real

    constructor (x: real, y: real)
      ensures Value() == G.Vec2(x, y)
    {
      this.x := x;
      this.y := y;
    }

    /** The point this object currently holds. */
    function Value(): G.Vec2
      reads this
    {
      G.Vec2(x, y)
    }

    method Set(x: real, y: real)
      modifies this
      ensures Value() == G.Vec2(x, y)
    {
      this.x := x;
      this.y := y;
    }

    /** `add(v)`: adds `v` in place. Each coordinate reads `v` before writing
        its own, so `v.add(v)` doubles `v`. */
    method Add(v: Vec2)
      modifies this
      ensures Value() == G.Add(old(Value()), old(v.Value()))
    {
      x := x + v.x;
      y := y + v.y;
    }

    /** `sub(v)`: subtracts `v` in place; `v.sub(v)` yields the zero vector. */
    method Sub(v: Vec2)
      modifies this
      ensures Value() == G.Sub(old(Value()), old(v.Value()))
      ensures v == this ==> Value() == G.Zero
    {
      x := x - v.x;
      y := y - v.y;
    }

    method Mult(k: real)
      modifies this
      ensures Value() == G.Scale(old(Value()), k)
    {
      x := x * k;
      y := y * k;
    }

    /** `div(k)`: divides in place; dividing by zero yields the zero vector
        instead of infinities. */
    method Div(k: real)
      modifies this
      ensures k != 0.0 ==> Value() == G.Vec2(old(x) / k, old(y) / k)
      ensures k == 0.0 ==> Value() == G.Zero
    {
      if k != 0.0 {
        x := x / k;
        y := y / k;
      } else {
        x := 0.0;
        y := 0.0;
      }
    }

    /** `normalize()`, given `len`, the value `Math.sqrt(magSq())` that `mag()`
        returns: a zero vector is left unchanged, any other vector becomes the
        unit vector with the same direction. */
    method Normalize(len: real)
      requires len >= 0.0 && len * len == G.MagSq(Value())
      modifies this
      ensures G.MagSq(old(Value())) == 0.0 ==> Value() == old(Value())
      ensures G.MagSq(old(Value())) != 0.0 ==>
                Value() == G.Scale(old(Value()), 1.0 / len) && G.MagSq(Value()) == 1.0
    {
      if len > 0.0 {
        UnitLength(x, y, len);
        Div(len);
      }
    }
  }

  /** Dividing a vector by its length gives length one. */
  lemma UnitLength(x: real, y: real, len: real)
    requires len > 0.0 && len * len == x * x + y * y
    ensures (x / len) * (x / len) + (y / len) * (y / len) == 1.0
    ensures x / len == x * (1.0 / len) && y / len == y * (1.0 / len)
  {
    assert (x / len) * (x / len) == (x * x) / (len * len);
    assert (y / len) * (y / len) == (y * y) / (len * len);
    assert (x * x) / (len * len) + (y * y) / (len * len) == (x * x + y * y) / (len * len);
  }

  /** An obstacle: the square with top-left corner (x, y) and the given size. */
  datatype Obstacle = Obstacle(x: real, y: real, width: real, height: real) {

    /** `contains(point)`: the point lies in the closed rectangle. */
    predicate Contains(p: G.Vec2) {
      x <= p.x <= x + width && y <= p.y <= y + height
    }

    /** The point of the rectangle nearest to `c`, found by clamping each
        coordinate. */
    function Nearest(c: G.Vec2): G.Vec2 {
      G.Vec2(G.Clamp(c.x, x, x + width), G.Clamp(c.y, y, y + height))
    }

    /** `collidesWithCircle(c, r)`: the nearest point of the rectangle is
        strictly closer to `c` than `r`. */
    predicate CollidesWithCircle(c: G.Vec2, r: real) {
      G.DistSq(c, Nearest(c)) < r * r
    }
  }

  /** The clamped point belongs to the rectangle and no point of the
      rectangle is closer. */
  lemma NearestIsNearest(o: Obstacle, c: G.Vec2, q: G.Vec2)
    requires o.width >= 0.0 && o.height >= 0.0 && o.Contains(q)
    ensures o.Contains(o.Nearest(c))
    ensures G.DistSq(c, o.Nearest(c)) <= G.DistSq(c, q)
  {
    ClampNearest(c.x, o.x, o.x + o.width, q.x);
    ClampNearest(c.y, o.y, o.y + o.height, q.y);
    AxisWiseCloser(c, o.Nearest(c), q);
  }

  /** A point closer to `c` along each axis is closer to `c`. */
  lemma AxisWiseCloser(c: G.Vec2, n: G.Vec2, q: G.Vec2)
    requires (c.x - n.x) * (c.x - n.x) <= (c.x - q.x) * (c.x - q.x)
    requires (c.y - n.y) * (c.y - n.y) <= (c.y - q.y) * (c.y - q.y)
    ensures G.DistSq(c, n) <= G.DistSq(c, q)
  {
  }

  /** A circle collides with an obstacle exactly when some point of the
      obstacle lies strictly inside it. */
  lemma CollidesIffSomePointInside(o: Obstacle, c: G.Vec2, r: real)
    requires o.width >= 0.0 && o.height >= 0.0
    ensures o.CollidesWithCircle(c, r) <==> exists q :: o.Contains(q) && G.DistSq(c, q) < r * r
  {
    NearestIsNearest(o, c, G.Vec2(o.x, o.y));
    if exists q :: o.Contains(q) && G.DistSq(c, q) < r * r {
      var q :| o.Contains(q) && G.DistSq(c, q) < r * r;
      NearestIsNearest(o, c, q);
    }
  }

  /** Clamping into [lo, hi] moves a coordinate to the nearest value of the
      interval. */
  lemma ClampNearest(c: real, lo: real, hi: real, q: real)
    requires lo <= q <= hi
    ensures lo <= G.Clamp(c, lo, hi) <= hi
    ensures (c - G.Clamp(c, lo, hi)) * (c - G.Clamp(c, lo, hi)) <= (c - q) * (c - q)
  {
    var m := G.Clamp(c, lo, hi);
    if c < lo {
      SquareMonotone(lo - c, q - c);
      assert (c - m) * (c - m) == (lo - c) * (lo - c);
      assert (c - q) * (c - q) == (q - c) * (q - c);
    } else if c > hi {
      SquareMonotone(c - hi, c - q);
    } else {
      G.SquareNonNegative(c - q);
    }
  }

  lemma SquareMonotone(a: real, b: real)
    requires 0.0 <= a <= b
    ensures a * a <= b * b
  {
    assert a * (b - a) >= 0.0;
    assert b * (b - a) >= 0.0;
  }
}
