/** Heritable traits and the genetic operators of the simulator's current
    Python version: per-trait crossover without blending, and per-trait
    mutation that is clamped to the kind's bounds. Random draws are
    parameters: a draw stands for one call of `random.random()`, a value in
    [0, 1). */
module Genome {
  import opened Geometry

  datatype Genes = Genes(speed: real, sense: real)

  /** Kind-specific trait bounds. */
  datatype Bounds = Bounds(minSpeed: real, maxSpeed: real, minSense: real, maxSense: real) {
    ghost predicate WellFormed() {
      minSpeed <= maxSpeed && minSense <= maxSense
    }
  }

  ghost predicate InBounds(g: Genes, b: Bounds) {
    b.minSpeed <= g.speed <= b.maxSpeed && b.minSense <= g.sense <= b.maxSense
  }

  /** A value returned by `random.random()`. */
  ghost predicate IsDraw(r: real) {
    0.0 <= r < 1.0
  }

  /** The draws one offspring's mutation consumes: for each trait, the draw
      compared with the mutation rate and the draw that sets the mutation's
      size (only consumed when the trait mutates). */
  datatype MutationDraws = MutationDraws(speedRate: real, speedSize: real, senseRate: real, senseSize: real)

  ghost predicate ValidMutationDraws(d: MutationDraws) {
    IsDraw(d.speedRate) && IsDraw(d.speedSize) && IsDraw(d.senseRate) && IsDraw(d.senseSize)
  }

  /** `crossover_genes`: each trait is taken from the first parent when its
      draw is below 0.5 and from the second otherwise. */
  function Crossover(g1: Genes, g2: Genes, speedDraw: real, senseDraw: real): (c: Genes)
    ensures c.speed == g1.speed || c.speed == g2.speed
    ensures c.sense == g1.sense || c.sense == g2.sense
    ensures forall b :: InBounds(g1, b) && InBounds(g2, b) ==> InBounds(c, b)
  {
    Genes(if speedDraw < 0.5 then g1.speed else g2.speed,
          if senseDraw < 0.5 then g1.sense else g2.sense)
  }

  /** One trait's mutation: when the rate draw is below the rate the trait
      moves by `(2 * size - 1) * strength * value` and is clamped to
      [lo, hi]; otherwise it is kept exactly as given. */
  function MutateTrait(value: real, rateDraw: real, sizeDraw: real, rate: real, strength: real,
                       lo: real, hi: real): (r: real)
    ensures rateDraw >= rate ==> r == value
    ensures rateDraw < rate && lo <= hi ==> lo <= r <= hi
    ensures lo <= value <= hi ==> lo <= r <= hi
  {
    if rateDraw < rate then Clamp(value + (sizeDraw * 2.0 - 1.0) * strength * value, lo, hi)
    else value
  }

  /** A mutation never moves an in-bounds trait by more than `strength` times
      its value: the perturbation is at most that large and clamping towards
      an interval that holds the old value only shortens the step. */
  lemma MutationStepBounded(value: real, rateDraw: real, sizeDraw: real, rate: real, strength: real,
                            lo: real, hi: real)
    requires IsDraw(sizeDraw) && strength >= 0.0 && value >= 0.0
    requires lo <= value <= hi
    ensures var r := MutateTrait(value, rateDraw, sizeDraw, rate, strength, lo, hi);
            value - strength * value <= r <= value + strength * value
  {
    var k := sizeDraw * 2.0 - 1.0;
    var sv := strength * value;
    Regroup(k, strength, value);
    NonNegativeProduct(strength, value);
    UnitScaled(k, sv);
    if rateDraw < rate {
      var raw := value + k * sv;
      assert MutateTrait(value, rateDraw, sizeDraw, rate, strength, lo, hi) == Clamp(raw, lo, hi);
    }
  }

  lemma Regroup(a: real, b: real, c: real)
    ensures a * b * c == a * (b * c)
  {
  }

  lemma NonNegativeProduct(a: real, b: real)
    requires a >= 0.0 && b >= 0.0
    ensures a * b >= 0.0
  {
  }

  /** Scaling a non-negative amount by a factor in [-1, 1] keeps it within
      that amount of zero. */
  lemma UnitScaled(k: real, x: real)
    requires -1.0 <= k <= 1.0 && x >= 0.0
    ensures -x <= k * x <= x
  {
    if k >= 0.0 {
      assert x - k * x == (1.0 - k) * x;
      NonNegativeProduct(1.0 - k, x);
    } else {
      assert x + k * x == (1.0 + k) * x;
      NonNegativeProduct(1.0 + k, x);
    }
  }

  /** The mutation applied by the `Creature`/`Predator` constructors when they
      are given genes: each trait independently, with the kind's rate,
      strength and bounds. */
  function Mutate(g: Genes, d: MutationDraws, rate: real, strength: real, b: Bounds): (c: Genes)
    ensures InBounds(g, b) ==> InBounds(c, b)
    ensures d.speedRate >= rate ==> c.speed == g.speed
    ensures d.senseRate >= rate ==> c.sense == g.sense
    ensures b.WellFormed() && d.speedRate < rate ==> b.minSpeed <= c.speed <= b.maxSpeed
    ensures b.WellFormed() && d.senseRate < rate ==> b.minSense <= c.sense <= b.maxSense
  {
    Genes(MutateTrait(g.speed, d.speedRate, d.speedSize, rate, strength, b.minSpeed, b.maxSpeed),
          MutateTrait(g.sense, d.senseRate, d.senseSize, rate, strength, b.minSense, b.maxSense))
  }

  /** Offspring traits stay within the kind's bounds when both parents'
      traits do: crossover copies traits verbatim and mutation clamps. */
  lemma OffspringInBounds(g1: Genes, g2: Genes, speedPick: real, sensePick: real,
                          d: MutationDraws, rate: real, strength: real, b: Bounds)
    requires InBounds(g1, b) && InBounds(g2, b)
    ensures InBounds(Mutate(Crossover(g1, g2, speedPick, sensePick), d, rate, strength, b), b)
  {
  }
}
