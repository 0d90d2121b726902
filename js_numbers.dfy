/** The part of JavaScript's number semantics that the web port's engine
    (web_version/script.js) depends on: NaN and how it flows through
    arithmetic, `Math.floor`, `Math.min`, `Math.max` and `<`; the port's
    `clamp`; and its `random` helper, whose call without arguments evaluates
    to NaN. Finite numbers are modelled as reals (rounding and the
    infinities are not modelled). A call of `Math.random()` is a parameter:
    a value in [0, 1). */
module JsNumbers {
  import Geometry

  /** A number value: finite, or NaN. */
  datatype Number = Num(value: real) | NaN

  /** An argument of `random`: passed, or left out (then `undefined`). */
  datatype Arg = Given(n: real) | Omitted

  /** `Number(a)`: `undefined` converts to NaN. */
  function ToNumber(a: Arg): Number {
    if a.Given? then Num(a.n) else NaN
  }

  function Plus(a: Number, b: Number): Number {
    if a.Num? && b.Num? then Num(a.value + b.value) else NaN
  }

  function Minus(a: Number, b: Number): Number {
    if a.Num? && b.Num? then Num(a.value - b.value) else NaN
  }

  function Times(a: Number, b: Number): Number {
    if a.Num? && b.Num? then Num(a.value * b.value) else NaN
  }

  function MathFloor(a: Number): Number {
    if a.Num? then Num(a.value.Floor as real) else NaN
  }

  function MathMin(a: Number, b: Number): Number {
    if a.Num? && b.Num? then Num(Geometry.Min(a.value, b.value)) else NaN
  }

  function MathMax(a: Number, b: Number): Number {
    if a.Num? && b.Num? then Num(Geometry.Max(a.value, b.value)) else NaN
  }

  /** `a < b`: false whenever either side is NaN. */
  predicate Less(a: Number, b: Number) {
    a.Num? && b.Num? && a.value < b.value
  }

  /** The port's `clamp(value, min, max)`, `Math.max(min, Math.min(value, max))`:
      on a finite value the clamp of the shared geometry, so within
      [min, max] when min <= max; NaN stays NaN. */
  function Clamp(value: Number, lo: real, hi: real): (r: Number)
    ensures value.NaN? ==> r.NaN?
    ensures value.Num? ==> r == Num(Geometry.Clamp(value.value, lo, hi))
    ensures value.Num? && lo <= hi ==> lo <= r.value <= hi
  {
    MathMax(Num(lo), MathMin(value, Num(hi)))
  }

  predicate IsInteger(x: real) {
    x == x.Floor as real
  }

  /** A value `Math.random()` can return. */
  predicate IsDraw(u: real) {
    0.0 <= u < 1.0
  }

  /** The port's `random(min, max)` around the draw `u` of `Math.random()`.
      With one argument the range is [0, min]. Without a lower bound (only
      `random(undefined, max)`) it is the draw itself. Otherwise it is
      `Math.floor(u * (max - min + 1)) + min`. That is an integer in
      [min, max] for integer bounds. Called with no argument at all, the
      upper bound is `undefined`, so the arithmetic yields NaN, and every
      comparison `random() < p` is false. */
  function Random(min: Arg, max: Arg, u: real): (r: Number)
    ensures min.Omitted? && max.Omitted? ==> r.NaN? && forall p :: !Less(r, p)
    ensures min.Omitted? && max.Given? ==> r == Num(u)
    ensures min.Given? ==> r.Num?
  {
    var lo := if max.Omitted? then Given(0.0) else min;
    var hi := if max.Omitted? then min else max;
    if lo.Omitted? then Num(u)
    else Plus(MathFloor(Times(Num(u), Plus(Minus(ToNumber(hi), ToNumber(lo)), Num(1.0)))), ToNumber(lo))
  }

  /** With integer bounds `lo <= hi`, `random(lo, hi)` is an integer in
      [lo, hi]. */
  lemma RandomInRange(lo: real, hi: real, u: real)
    requires IsInteger(lo) && IsInteger(hi) && lo <= hi && IsDraw(u)
    ensures var r := Random(Given(lo), Given(hi), u);
            IsInteger(r.value) && lo <= r.value <= hi
  {
    var m := hi.Floor - lo.Floor + 1;
    assert hi - lo + 1.0 == m as real;
    ScaledDrawFloor(u, m);
    var x := u * (hi - lo + 1.0);
    assert x == u * m as real;
    var k := x.Floor;
    assert Times(Num(u), Plus(Minus(Num(hi), Num(lo)), Num(1.0))) == Num(x);
    assert Random(Given(lo), Given(hi), u) == Num(k as real + lo);
    var n := k + lo.Floor;
    assert k as real + lo == n as real;
    assert (n as real).Floor == n;
    assert 0 <= k <= m - 1;
    assert lo <= n as real <= hi;
  }

  /** With one argument, `random(a)` is `random(0, a)`: for a non-negative
      integer `a` an integer in [0, a]. */
  lemma RandomOneBound(a: real, u: real)
    requires IsInteger(a) && 0.0 <= a && IsDraw(u)
    ensures Random(Given(a), Omitted, u) == Random(Given(0.0), Given(a), u)
    ensures var r := Random(Given(a), Omitted, u);
            IsInteger(r.value) && 0.0 <= r.value <= a
  {
    RandomInRange(0.0, a, u);
  }

  /** The floor of a draw scaled by a positive integer `m` lies in [0, m - 1]. */
  lemma ScaledDrawFloor(u: real, m: int)
    requires IsDraw(u) && m >= 1
    ensures 0 <= (u * m as real).Floor < m
  {
    var x := u * m as real;
    assert 0.0 <= x;
    assert x < m as real by {
      assert (m as real) * u < (m as real) * 1.0;
    }
  }
}
