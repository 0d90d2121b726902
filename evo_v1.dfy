/** The per-frame engine of the first version of the simulator
    (evo_with_gemini.py): creatures that forage and predators that chase
    them, both reproducing asexually once they have stored enough energy;
    and the frame of the main loop, which updates every agent, runs a
    hunting pass and an eating pass, applies the removals and births, culls
    the weakest agents down to each population's cap and lets scarce food
    regrow.

    Randomness is a parameter: a draw stands for one call of
    `random.random()`, and `random.uniform(lo, hi)` is `lo + (hi - lo) * u`
    on a draw `u`. Positions found by the spawn loops are parameters, and so
    are headings: the unit vector towards an agent's target (which needs a
    square root) and a freshly drawn wander direction. */
module EvoV1 {
  import opened Geometry
  import opened Genome
  import opened Lists
  import opened Ranking
  import opened Options
  import Spatial

  const Width: real := 1000.0
  const Height: real := 750.0
  const MaxCreatures: nat := 100
  const MaxPredators: nat := 15
  const FoodCount: nat := 50
  const FoodEnergy: real := 50.0
  const FoodRadius: real := 3.0
  const PredatorHuntEnergyGain: real := 100.0
  /** Pixels per second of one unit of speed. */
  const MoveScale: real := 50.0
  /** The chance per frame that a wandering agent draws a new direction. */
  const TurnChance: real := 0.05
  /** The chance per frame that scarce food regrows, and how many pellets. */
  const RegrowChance: real := 0.1
  const RegrowBatch: nat := 10
  /** An offspring lands up to this far from its parent along each axis. */
  const SpawnJitter: real := 10.0

  /** The classes `Creature` and `Predator` share one Dafny class; their
      per-kind constants are these functions of the kind. */
  datatype Kind = CreatureKind | PredatorKind

  function Radius(k: Kind): real {
    match k
    case CreatureKind => 5.0
    case PredatorKind => 7.0
  }

  function InitialEnergy(k: Kind): real {
    match k
    case CreatureKind => 50.0
    case PredatorKind => 150.0
  }

  function EnergyDecay(k: Kind): real {
    match k
    case CreatureKind => 0.15
    case PredatorKind => 0.12
  }

  function MoveCost(k: Kind): real {
    match k
    case CreatureKind => 0.5
    case PredatorKind => 0.1
  }

  function ReproductionThreshold(k: Kind): real {
    match k
    case CreatureKind => 150.0
    case PredatorKind => 250.0
  }

  function ReproductionCost(k: Kind): real {
    match k
    case CreatureKind => 100.0
    case PredatorKind => 120.0
  }

  function MaxAge(k: Kind): real {
    match k
    case CreatureKind => 50.0
    case PredatorKind => 50.0
  }

  function TraitBounds(k: Kind): Bounds {
    match k
    case CreatureKind => Bounds(0.5, 5.0, 10.0, 100.0)
    case PredatorKind => Bounds(0.5, 5.0, 20.0, 150.0)
  }

  function MutationRate(k: Kind): real {
    match k
    case CreatureKind => 0.15
    case PredatorKind => 0.1
  }

  function MutationStrength(k: Kind): real {
    match k
    case CreatureKind => 0.5
    case PredatorKind => 0.2
  }

  /** The population cap of a kind. */
  function Cap(k: Kind): nat {
    match k
    case CreatureKind => MaxCreatures
    case PredatorKind => MaxPredators
  }

  /** `random.uniform(lo, hi)` on the draw `u`. */
  function Uniform(lo: real, hi: real, u: real): (r: real)
    ensures IsDraw(u) && lo <= hi ==> lo <= r <= hi
  {
    lo + Scaled(hi - lo, u)
  }

  /** A draw scaled to a span: within [0, span] for a nonnegative span. */
  function Scaled(span: real, u: real): (r: real)
    ensures IsDraw(u) && span >= 0.0 ==> 0.0 <= r <= span
  {
    assert IsDraw(u) && span >= 0.0 ==> 0.0 * span <= u * span <= 1.0 * span;
    span * u
  }

  /** The traits of a founder: each drawn uniformly between the kind's
      bounds. */
  function FounderGenes(k: Kind, speedDraw: real, senseDraw: real): (g: Genes)
    ensures IsDraw(speedDraw) && IsDraw(senseDraw) ==> InBounds(g, TraitBounds(k))
  {
    var b := TraitBounds(k);
    Genes(Uniform(b.minSpeed, b.maxSpeed, speedDraw), Uniform(b.minSense, b.maxSense, senseDraw))
  }

  /** The draws an offspring consumes: its spawn jitter, for each trait the
      draw compared with the mutation rate and the draw that sizes the
      mutation, and the draws of its first wander direction. */
  datatype SpawnDraws = SpawnDraws(jitterX: real, jitterY: real, speedRate: real, speedSize: real,
                                   senseRate: real, senseSize: real, wanderDraw: real, wander: Vec2)

  /** One inherited trait: when the rate draw is below the rate the trait
      moves by `uniform(-strength, strength) * value`; mutated or not, it is
      then clamped to [lo, hi]. */
  function InheritTrait(value: real, rateDraw: real, sizeDraw: real, rate: real, strength: real,
                        lo: real, hi: real): (r: real)
    ensures lo <= hi ==> lo <= r <= hi
    ensures rateDraw >= rate ==> r == Clamp(value, lo, hi)
  {
    Clamp(if rateDraw < rate then value + Uniform(-strength, strength, sizeDraw) * value else value, lo, hi)
  }

  /** The traits of an offspring, from the genes its parent hands down: both
      are within the kind's bounds whatever the parent's, and a trait that
      does not mutate is kept when it was within bounds. */
  function InheritGenes(g: Genes, d: SpawnDraws, k: Kind): (c: Genes)
    ensures InBounds(c, TraitBounds(k))
    ensures d.speedRate >= MutationRate(k) && InBounds(g, TraitBounds(k)) ==> c.speed == g.speed
    ensures d.senseRate >= MutationRate(k) && InBounds(g, TraitBounds(k)) ==> c.sense == g.sense
  {
    var b := TraitBounds(k);
    Genes(InheritTrait(g.speed, d.speedRate, d.speedSize, MutationRate(k), MutationStrength(k), b.minSpeed, b.maxSpeed),
          InheritTrait(g.sense, d.senseRate, d.senseSize, MutationRate(k), MutationStrength(k), b.minSense, b.maxSense))
  }

  /** On a trait within its bounds this version's inheritance is the later
      version's mutation, which clamps only a trait that mutates. */
  lemma InheritMatchesMutate(value: real, rateDraw: real, sizeDraw: real, rate: real, strength: real,
                             lo: real, hi: real)
    requires lo <= value <= hi
    ensures InheritTrait(value, rateDraw, sizeDraw, rate, strength, lo, hi) ==
            MutateTrait(value, rateDraw, sizeDraw, rate, strength, lo, hi)
  {
    if rateDraw < rate {
      assert Uniform(-strength, strength, sizeDraw) == (sizeDraw * 2.0 - 1.0) * strength;
    }
  }

  /** Outside its bounds the two differ: an unmutated trait above the bound
      is clamped here and kept by the later version. */
  lemma InheritClampsUnmutated(value: real, rateDraw: real, sizeDraw: real, rate: real, strength: real,
                               lo: real, hi: real)
    requires lo <= hi < value && rateDraw >= rate
    ensures InheritTrait(value, rateDraw, sizeDraw, rate, strength, lo, hi) == hi
    ensures MutateTrait(value, rateDraw, sizeDraw, rate, strength, lo, hi) == value
  {
  }

  /** Where an offspring lands: its parent's position moved by
      `uniform(-10, 10)` along each axis, clamped to the screen. */
  function SpawnPos(parentPos: Vec2, d: SpawnDraws, k: Kind): (p: Vec2)
    ensures InBox(p, Radius(k), Width, Height)
  {
    ClampToBox(Vec2(parentPos.x + Uniform(-SpawnJitter, SpawnJitter, d.jitterX),
                    parentPos.y + Uniform(-SpawnJitter, SpawnJitter, d.jitterY)),
               Radius(k), Width, Height)
  }

  /** An offspring of a parent on the screen lands within the jitter of its
      parent along each axis: clamping towards a box that holds the parent
      only brings it closer. */
  lemma SpawnNearParent(parentPos: Vec2, d: SpawnDraws, k: Kind)
    requires IsDraw(d.jitterX) && IsDraw(d.jitterY)
    requires InBox(parentPos, Radius(k), Width, Height)
    ensures var p := SpawnPos(parentPos, d, k);
            parentPos.x - SpawnJitter <= p.x <= parentPos.x + SpawnJitter &&
            parentPos.y - SpawnJitter <= p.y <= parentPos.y + SpawnJitter
  {
  }

  /** The first wander direction: the drawn direction, or (1, 0) when the
      draw guarding it is zero. */
  function InitialWander(draw: real, heading: Vec2): (v: Vec2)
    ensures v == heading || v == Vec2(1.0, 0.0)
    ensures MagSq(heading) == 1.0 ==> MagSq(v) == 1.0
  {
    if draw > 0.0 then heading else Vec2(1.0, 0.0)
  }

  /** `if gen > max: max = gen`: the generation counter raised to `g`. */
  function RaiseTo(m: nat, g: nat): (r: nat)
    ensures r >= m && r >= g && (r == m || r == g)
  {
    if g > m then g else m
  }

  /** What one agent's update is handed for one frame: the unit vector
      towards its target, the draw deciding whether a wanderer turns and the
      direction it would turn to, and the draws of a possible offspring. */
  datatype AgentInput = AgentInput(aim: Vec2, turnDraw: real, wander: Vec2, spawn: SpawnDraws)

  /** What `update` returns: `"dead"`, an offspring, or `None`. */
  datatype Outcome = Dead | Spawned(child: Agent) | Nothing

  /** A food pellet; it never changes once placed. */
  class Food {
    const pos: Vec2
    const radius: real := FoodRadius

    /** A pellet at the spot the placement loop found. */
    constructor (pos: Vec2)
      ensures this.pos == pos
    {
      this.pos := pos;
    }
  }

  class Agent {
    const kind: Kind
    const radius: real := Radius(kind)
    const obstacles: seq<Rect>
    const generation: nat
    const genes: Genes
    /** The squared sense radius both scans compare against. */
    const senseSq: real := genes.sense * genes.sense
    var pos: Vec2
    var energy: real
    var age: real
    var isDead: bool
    /** A creature's target. */
    var targetFood: Food?
    /** A predator's target. */
    var targetCreature: Agent?
    /** `random_direction`: the heading kept while wandering. */
    var wander: Vec2

    /** `Creature(obstacles)` or `Predator(obstacles)`: a founder of
        generation 0 at the spot the placement loop found, each trait drawn
        between the kind's bounds. */
    constructor Founder(kind: Kind, obstacles: seq<Rect>, pos: Vec2, speedDraw: real, senseDraw: real,
                        wanderDraw: real, heading: Vec2)
      ensures this.kind == kind && this.obstacles == obstacles && this.pos == pos && generation == 0
      ensures genes == FounderGenes(kind, speedDraw, senseDraw)
      ensures wander == InitialWander(wanderDraw, heading)
      ensures Fresh()
    {
      this.kind := kind;
      this.obstacles := obstacles;
      this.pos := pos;
      generation := 0;
      genes := FounderGenes(kind, speedDraw, senseDraw);
      energy := InitialEnergy(kind);
      age := 0.0;
      isDead := false;
      targetFood := null;
      targetCreature := null;
      wander := InitialWander(wanderDraw, heading);
    }

    /** The offspring `update` builds from its parent: one generation later,
        next to the parent, its inherited traits mutated and clamped; the
        kind's generation counter is raised to it. */
    constructor Offspring(w: World, parent: Agent, d: SpawnDraws)
      modifies w`maxCreatureGeneration, w`maxPredatorGeneration
      ensures kind == parent.kind && obstacles == parent.obstacles && generation == parent.generation + 1
      ensures genes == InheritGenes(parent.genes, d, kind)
      ensures pos == SpawnPos(parent.pos, d, kind)
      ensures wander == InitialWander(d.wanderDraw, d.wander)
      ensures Fresh()
      ensures kind == CreatureKind ==>
                w.maxCreatureGeneration == RaiseTo(old(w.maxCreatureGeneration), generation) &&
                w.maxPredatorGeneration == old(w.maxPredatorGeneration)
      ensures kind == PredatorKind ==>
                w.maxPredatorGeneration == RaiseTo(old(w.maxPredatorGeneration), generation) &&
                w.maxCreatureGeneration == old(w.maxCreatureGeneration)
    {
      kind := parent.kind;
      obstacles := parent.obstacles;
      generation := parent.generation + 1;
      genes := InheritGenes(parent.genes, d, parent.kind);
      pos := SpawnPos(parent.pos, d, parent.kind);
      energy := InitialEnergy(parent.kind);
      age := 0.0;
      isDead := false;
      targetFood := null;
      targetCreature := null;
      wander := InitialWander(d.wanderDraw, d.wander);
      new;
      if kind == CreatureKind {
        w.maxCreatureGeneration := RaiseTo(w.maxCreatureGeneration, generation);
      } else {
        w.maxPredatorGeneration := RaiseTo(w.maxPredatorGeneration, generation);
      }
    }

    /** The state of a newly built agent. */
    ghost predicate Fresh()
      reads this
    {
      energy == InitialEnergy(kind) && age == 0.0 && !isDead && targetFood == null && targetCreature == null
    }

    /** The agent's rectangle, kept centred on its position. */
    function Box(): Rect
      reads this`pos
    {
      BoxAround(pos, radius)
    }

    /** Whether the agent's rectangle would overlap an obstacle at `p`. */
    ghost predicate Crashes(p: Vec2) {
      exists o :: o in obstacles && Overlap(BoxAround(p, radius), o)
    }

    /** The obstacle loop of `update`: whether the rectangle overlaps any
        obstacle. */
    method HitsObstacle() returns (hit: bool)
      ensures hit <==> Crashes(pos)
    {
      for i := 0 to |obstacles|
        invariant forall j :: 0 <= j < i ==> !Overlap(Box(), obstacles[j])
      {
        if Overlap(Box(), obstacles[i]) {
          assert obstacles[i] in obstacles;
          return true;
        }
      }
      return false;
    }

    /** `f` is what `find_closest_food` returns: a pellet strictly inside the
        squared sense radius, no pellet closer, and every pellet listed
        before it strictly farther. */
    ghost predicate ClosestFoodOf(foods: seq<Food>, f: Food)
      reads this`pos
    {
      f in foods && DistSq(pos, f.pos) < senseSq &&
      (forall g :: g in foods ==> DistSq(pos, g.pos) >= DistSq(pos, f.pos)) &&
      exists k :: 0 <= k < |foods| && foods[k] == f &&
        forall j :: 0 <= j < k ==> DistSq(pos, foods[j].pos) > DistSq(pos, f.pos)
    }

    /** `c` is what `find_closest_prey` returns: a living creature strictly
        inside the squared sense radius, no living creature closer, and every
        living creature listed before it strictly farther. */
    ghost predicate ClosestPreyOf(prey: seq<Agent>, c: Agent)
      reads this`pos, prey`pos, prey`isDead
    {
      c in prey && !c.isDead && DistSq(pos, c.pos) < senseSq &&
      (forall a :: a in prey && !a.isDead ==> DistSq(pos, a.pos) >= DistSq(pos, c.pos)) &&
      exists k :: 0 <= k < |prey| && prey[k] == c &&
        forall j :: 0 <= j < k && !prey[j].isDead ==> DistSq(pos, prey[j].pos) > DistSq(pos, c.pos)
    }

    /** `find_closest_food`: the first pellet at the least squared distance
        strictly inside the squared sense radius, or null. */
    method FindClosestFood(foods: seq<Food>) returns (closest: Food?)
      ensures closest == null ==>
                forall f :: f in foods ==> DistSq(pos, f.pos) >= senseSq
      ensures closest != null ==>
                closest in foods && DistSq(pos, closest.pos) < senseSq &&
                forall f :: f in foods ==> DistSq(pos, f.pos) >= DistSq(pos, closest.pos)
      ensures closest != null ==>
                exists k :: 0 <= k < |foods| && foods[k] == closest &&
                  forall j :: 0 <= j < k ==> DistSq(pos, foods[j].pos) > DistSq(pos, closest.pos)
    {
      var points := FoodPositions(foods);
      var eligible := seq(|foods|, i => true);
      var found, distSq := Spatial.NearestIndex(pos, points, eligible, senseSq);
      if found.None? {
        closest := null;
        forall f | f in foods
          ensures DistSq(pos, f.pos) >= senseSq
        {
          var i :| 0 <= i < |foods| && foods[i] == f;
          assert eligible[i];
        }
      } else {
        var k := found.value;
        closest := foods[k];
        forall f | f in foods
          ensures DistSq(pos, f.pos) >= distSq
        {
          var i :| 0 <= i < |foods| && foods[i] == f;
          assert eligible[i];
        }
        forall j | 0 <= j < k
          ensures DistSq(pos, foods[j].pos) > distSq
        {
          assert eligible[j];
        }
      }
    }

    /** `find_closest_prey`: the first living creature at the least squared
        distance strictly inside the squared sense radius, or null; dead
        creatures are ignored. */
    method FindClosestPrey(prey: seq<Agent>) returns (closest: Agent?)
      ensures closest == null ==>
                forall c :: c in prey && !c.isDead ==> DistSq(pos, c.pos) >= senseSq
      ensures closest != null ==>
                closest in prey && !closest.isDead && DistSq(pos, closest.pos) < senseSq &&
                forall c :: c in prey && !c.isDead ==> DistSq(pos, c.pos) >= DistSq(pos, closest.pos)
      ensures closest != null ==>
                exists k :: 0 <= k < |prey| && prey[k] == closest &&
                  forall j :: 0 <= j < k && !prey[j].isDead ==> DistSq(pos, prey[j].pos) > DistSq(pos, closest.pos)
    {
      var points := Positions(prey);
      var eligible := Living(prey);
      var found, distSq := Spatial.NearestIndex(pos, points, eligible, senseSq);
      if found.None? {
        closest := null;
        forall c | c in prey && !c.isDead
          ensures DistSq(pos, c.pos) >= senseSq
        {
          var i :| 0 <= i < |prey| && prey[i] == c;
          assert eligible[i];
        }
      } else {
        var k := found.value;
        closest := prey[k];
        forall c | c in prey && !c.isDead
          ensures DistSq(pos, c.pos) >= distSq
        {
          var i :| 0 <= i < |prey| && prey[i] == c;
          assert eligible[i];
        }
        forall j | 0 <= j < k && !prey[j].isDead
          ensures DistSq(pos, prey[j].pos) > distSq
        {
          assert eligible[j];
        }
      }
    }

    /** `move` of a creature. A target still on the food list is approached
        along `aim`, or dropped with no move once the creature touches it
        (its distance is below the sum of the radii). Without such a target
        the creature wanders: with chance 0.05 it first turns to the drawn
        direction. It then moves `50 * speed * dt` along its direction,
        clamped to the screen, and pays `MOVE_COST * speed * dt` only when
        the direction is not zero. */
    method MoveCreature(foods: seq<Food>, dt: real, input: AgentInput) returns (direction: Vec2)
      modifies this`pos, this`energy, this`targetFood, this`wander
      ensures var t := old(targetFood);
              if t != null && t in foods then
                wander == old(wander) &&
                if DistSq(old(pos), t.pos) < (radius + t.radius) * (radius + t.radius)
                then direction == Zero && targetFood == null
                else direction == input.aim && targetFood == t
              else
                targetFood == null && direction == wander &&
                wander == if input.turnDraw < TurnChance then input.wander else old(wander)
      ensures pos == Moved(old(pos), direction, genes.speed * dt, radius)
      ensures InBox(pos, radius, Width, Height)
      ensures energy == old(energy) - if MagSq(direction) > 0.0 then MoveCost(kind) * genes.speed * dt else 0.0
    {
      direction := Zero;
      if targetFood != null && targetFood in foods {
        var d := DistSq(pos, targetFood.pos);
        if d < (radius + targetFood.radius) * (radius + targetFood.radius) {
          targetFood := null;
        } else if d > 0.0 {
          direction := input.aim;
        }
      } else {
        targetFood := null;
        if input.turnDraw < TurnChance {
          wander := input.wander;
        }
        direction := wander;
      }
      pos := Moved(pos, direction, genes.speed * dt, radius);
      if MagSq(direction) > 0.0 {
        energy := energy - MoveCost(kind) * genes.speed * dt;
      }
    }

    /** `move` of a predator. A target still on the creature list and alive
        is approached along `aim` (no step when it sits at the predator's
        exact position); otherwise the target is dropped and the predator
        wanders as a creature does. Movement, clamping and cost are as for
        a creature. */
    method MovePredator(prey: seq<Agent>, dt: real, input: AgentInput) returns (direction: Vec2)
      modifies this`pos, this`energy, this`targetCreature, this`wander
      ensures var t := old(targetCreature);
              if t != null && t in prey && !t.isDead then
                wander == old(wander) && targetCreature == t &&
                direction == if DistSq(old(pos), old(t.pos)) > 0.0 then input.aim else Zero
              else
                targetCreature == null && direction == wander &&
                wander == if input.turnDraw < TurnChance then input.wander else old(wander)
      ensures pos == Moved(old(pos), direction, genes.speed * dt, radius)
      ensures InBox(pos, radius, Width, Height)
      ensures energy == old(energy) - if MagSq(direction) > 0.0 then MoveCost(kind) * genes.speed * dt else 0.0
    {
      direction := Zero;
      if targetCreature != null && targetCreature in prey && !targetCreature.isDead {
        if DistSq(pos, targetCreature.pos) > 0.0 {
          direction := input.aim;
        }
      } else {
        targetCreature := null;
        if input.turnDraw < TurnChance {
          wander := input.wander;
        }
        direction := wander;
      }
      pos := Moved(pos, direction, genes.speed * dt, radius);
      if MagSq(direction) > 0.0 {
        energy := energy - MoveCost(kind) * genes.speed * dt;
      }
    }

    /** `update`. A dead agent answers `"dead"` and nothing changes.
        Otherwise it ages by `dt` and dies, in this order: of old age, on
        touching an obstacle, or when its energy after moving and decaying
        is not positive. A survivor whose energy reaches the threshold while
        its population (not counting this frame's births) is below the cap
        pays the reproduction cost and answers an offspring; any other
        answers `None`. */
    method Update(w: World, dt: real, input: AgentInput) returns (outcome: Outcome)
      modifies this, w`maxCreatureGeneration, w`maxPredatorGeneration
      ensures old(isDead) ==>
                outcome.Dead? && isDead && age == old(age) && energy == old(energy) && pos == old(pos)
      ensures !old(isDead) ==> age == old(age) + dt && isDead == outcome.Dead?
      ensures !old(isDead) && (age >= MaxAge(kind) || Crashes(old(pos))) ==>
                outcome.Dead? && energy == old(energy) && pos == old(pos)
      ensures !old(isDead) && age < MaxAge(kind) && !Crashes(old(pos)) ==>
                InBox(pos, radius, Width, Height) &&
                var fed := if outcome.Spawned? then energy + ReproductionCost(kind) else energy;
                (fed == old(energy) - EnergyDecay(kind) * dt ||
                 fed == old(energy) - (MoveCost(kind) * genes.speed + EnergyDecay(kind)) * dt) &&
                (outcome.Dead? <==> fed <= 0.0) &&
                (outcome.Spawned? <==>
                   fed > 0.0 && fed >= ReproductionThreshold(kind) && Population(w, kind) < Cap(kind))
      ensures outcome.Spawned? ==>
                var child := outcome.child;
                fresh(child) && child.Fresh() && child.kind == kind && child.obstacles == obstacles &&
                child.generation == generation + 1 &&
                child.genes == InheritGenes(genes, input.spawn, kind) &&
                child.pos == SpawnPos(pos, input.spawn, kind) &&
                (kind == CreatureKind ==>
                   w.maxCreatureGeneration == RaiseTo(old(w.maxCreatureGeneration), child.generation)) &&
                (kind == PredatorKind ==>
                   w.maxPredatorGeneration == RaiseTo(old(w.maxPredatorGeneration), child.generation))
      ensures !outcome.Spawned? || kind == PredatorKind ==> w.maxCreatureGeneration == old(w.maxCreatureGeneration)
      ensures !outcome.Spawned? || kind == CreatureKind ==> w.maxPredatorGeneration == old(w.maxPredatorGeneration)
    {
      if isDead {
        return Dead;
      }
      age := age + dt;
      if age >= MaxAge(kind) {
        isDead := true;
        return Dead;
      }
      var hit := HitsObstacle();
      if hit {
        isDead := true;
        return Dead;
      }
      Travel(w, dt, input);
      energy := energy - EnergyDecay(kind) * dt;
      if energy <= 0.0 {
        isDead := true;
        return Dead;
      }
      if energy >= ReproductionThreshold(kind) && Population(w, kind) < Cap(kind) {
        energy := energy - ReproductionCost(kind);
        var child := new Agent.Offspring(w, this, input.spawn);
        return Spawned(child);
      }
      return Nothing;
    }

    /** The middle of `update`: the target choice (`Seek`), then the move. */
    method Travel(w: World, dt: real, input: AgentInput)
      modifies this`pos, this`energy, this`targetFood, this`targetCreature, this`wander
      ensures InBox(pos, radius, Width, Height)
      ensures energy == old(energy) || energy == old(energy) - MoveCost(kind) * genes.speed * dt
    {
      Seek(w);
      if kind == CreatureKind {
        var _ := MoveCreature(w.food, dt, input);
      } else {
        var _ := MovePredator(w.creatures, dt, input);
      }
    }

    /** The target choice before the move: a creature without a target takes
        the closest pellet inside its sense radius (`SeekFood`), a predator
        without a living target the closest living creature (`SeekPrey`); a
        target already held is kept. Nothing is taken exactly when nothing
        lies inside the radius, since a pick lies inside it. */
    method Seek(w: World)
      modifies this`targetFood, this`targetCreature
      ensures kind == CreatureKind ==> targetCreature == old(targetCreature)
      ensures kind == CreatureKind && old(targetFood) != null ==> targetFood == old(targetFood)
      ensures kind == CreatureKind && old(targetFood) == null ==>
                if targetFood == null then forall f :: f in w.food ==> DistSq(pos, f.pos) >= senseSq
                else ClosestFoodOf(w.food, targetFood)
      ensures kind == PredatorKind ==> targetFood == old(targetFood)
      ensures kind == PredatorKind && old(targetCreature != null && !targetCreature.isDead) ==>
                targetCreature == old(targetCreature)
      ensures kind == PredatorKind && old(targetCreature == null || targetCreature.isDead) ==>
                if targetCreature == null then forall c :: c in w.creatures && !c.isDead ==> DistSq(pos, c.pos) >= senseSq
                else ClosestPreyOf(w.creatures, targetCreature)
    {
      if kind == CreatureKind {
        SeekFood(w);
      } else {
        SeekPrey(w);
      }
    }

    /** `update`'s food search for a creature without a target. */
    method SeekFood(w: World)
      modifies this`targetFood
      ensures old(targetFood) != null ==> targetFood == old(targetFood)
      ensures old(targetFood) == null ==>
                if targetFood == null then forall f :: f in w.food ==> DistSq(pos, f.pos) >= senseSq
                else ClosestFoodOf(w.food, targetFood)
    {
      if targetFood == null {
        var f := FindClosestFood(w.food);
        targetFood := f;
      }
    }

    /** `find_closest_prey` stated through `ClosestPreyOf`. */
    method PickPrey(prey: seq<Agent>) returns (closest: Agent?)
      ensures closest != null ==> ClosestPreyOf(prey, closest)
      ensures closest == null ==> forall c :: c in prey && !c.isDead ==> DistSq(pos, c.pos) >= senseSq
    {
      closest := FindClosestPrey(prey);
    }

    /** `update`'s prey search for a predator without a living target. */
    method SeekPrey(w: World)
      modifies this`targetCreature
      ensures old(targetCreature != null && !targetCreature.isDead) ==> targetCreature == old(targetCreature)
      ensures old(targetCreature == null || targetCreature.isDead) ==>
                if targetCreature == null then forall c :: c in w.creatures && !c.isDead ==> DistSq(pos, c.pos) >= senseSq
                else ClosestPreyOf(w.creatures, targetCreature)
    {
      if targetCreature == null || targetCreature.isDead {
        TakePrey(w);
      }
    }

    /** `self.target_creature = self.find_closest_prey(creature_list)`. */
    method TakePrey(w: World)
      modifies this`targetCreature
      ensures if targetCreature == null then forall c :: c in w.creatures && !c.isDead ==> DistSq(pos, c.pos) >= senseSq
              else ClosestPreyOf(w.creatures, targetCreature)
    {
      targetCreature := PickPrey(w.creatures);
    }

    /** `eat`: a living creature gains FOOD_ENERGY and drops the pellet as
        its target; a dead one is left as it is. */
    method Eat(item: Food)
      modifies this`energy, this`targetFood
      ensures isDead ==> energy == old(energy) && targetFood == old(targetFood)
      ensures !isDead ==>
                energy == old(energy) + FoodEnergy &&
                targetFood == if old(targetFood) == item then null else old(targetFood)
    {
      if !isDead {
        energy := energy + FoodEnergy;
        if targetFood == item {
          targetFood := null;
        }
      }
    }

    /** `hunt`: a living predator kills a living prey, gains the hunt energy
        and drops the prey as its target; otherwise nothing changes. */
    method Hunt(prey: Agent)
      modifies prey`isDead, this`energy, this`targetCreature
      ensures old(isDead) || old(prey.isDead) ==>
                prey.isDead == old(prey.isDead) && energy == old(energy) && targetCreature == old(targetCreature)
      ensures !old(isDead) && !old(prey.isDead) ==>
                prey.isDead && energy == old(energy) + PredatorHuntEnergyGain &&
                targetCreature == if old(targetCreature) == prey then null else old(targetCreature)
    {
      if !isDead && !prey.isDead {
        prey.isDead := true;
        energy := energy + PredatorHuntEnergyGain;
        if targetCreature == prey {
          targetCreature := null;
        }
      }
    }
  }

  /** The size of the population an agent of kind `k` belongs to. */
  function Population(w: World, k: Kind): nat
    reads w
  {
    if k == CreatureKind then |w.creatures| else |w.predators|
  }

  /** Where a step of `distance` along `heading` (scaled by the movement
      constant) takes an agent of the given radius, clamped to the screen. */
  function Moved(p: Vec2, heading: Vec2, distance: real, radius: real): Vec2 {
    ClampToBox(Add(p, Scale(heading, distance * MoveScale)), radius, Width, Height)
  }

  function Positions(agents: seq<Agent>): (ps: seq<Vec2>)
    reads agents
    ensures |ps| == |agents| && forall i :: 0 <= i < |agents| ==> ps[i] == agents[i].pos
  {
    seq(|agents|, i requires 0 <= i < |agents| reads agents => agents[i].pos)
  }

  function FoodPositions(foods: seq<Food>): (ps: seq<Vec2>)
    ensures |ps| == |foods| && forall i :: 0 <= i < |foods| ==> ps[i] == foods[i].pos
  {
    seq(|foods|, i requires 0 <= i < |foods| => foods[i].pos)
  }

  /** Which agents of a list are alive. */
  function Living(agents: seq<Agent>): (alive: seq<bool>)
    reads agents
    ensures |alive| == |agents| && forall i :: 0 <= i < |agents| ==> alive[i] == !agents[i].isDead
  {
    seq(|agents|, i requires 0 <= i < |agents| reads agents => !agents[i].isDead)
  }

  /** The bite test of the hunting pass: the rectangles overlap and the
      centres are closer than the sum of the radii. */
  predicate Bites(p: Agent, c: Agent)
    reads p, c
  {
    Overlap(p.Box(), c.Box()) && DistSq(p.pos, c.pos) < (p.radius + c.radius) * (p.radius + c.radius)
  }

  /** The meal test of the eating pass: the centres are closer than the sum
      of the radii. */
  predicate Reaches(c: Agent, f: Food)
    reads c
  {
    DistSq(c.pos, f.pos) < (c.radius + f.radius) * (c.radius + f.radius)
  }

  /** The rectangle test of the hunting pass is only a filter: circles
      closer than the sum of their radii always have overlapping
      rectangles. */
  lemma CloseCirclesOverlap(a: Vec2, ra: real, b: Vec2, rb: real)
    requires ra > 0.0 && rb > 0.0
    requires DistSq(a, b) < (ra + rb) * (ra + rb)
    ensures Overlap(BoxAround(a, ra), BoxAround(b, rb))
  {
    var s := ra + rb;
    SquareNonNegative(a.y - b.y);
    AxisCloser(a.x - b.x, s);
    SquareNonNegative(a.x - b.x);
    AxisCloser(a.y - b.y, s);
  }

  lemma AxisCloser(d: real, s: real)
    requires s > 0.0 && d * d < s * s
    ensures -s < d < s
  {
  }

  class World {
    var creatures: seq<Agent>
    var predators: seq<Agent>
    var food: seq<Food>
    var maxCreatureGeneration: nat
    var maxPredatorGeneration: nat
    var selected: Agent?
    var paused: bool
    const obstacles: seq<Rect>

    /** An empty, running world with the given obstacles. */
    constructor (obstacles: seq<Rect>)
      ensures this.obstacles == obstacles && creatures == [] && predators == [] && food == []
      ensures maxCreatureGeneration == 0 && maxPredatorGeneration == 0 && selected == null && !paused
      ensures Valid()
    {
      this.obstacles := obstacles;
      creatures := [];
      predators := [];
      food := [];
      maxCreatureGeneration := 0;
      maxPredatorGeneration := 0;
      selected := null;
      paused := false;
    }

    /** The lists hold agents of the right kind and no entry twice. */
    ghost predicate WellFormed()
      reads this
    {
      (forall a :: a in creatures ==> a.kind == CreatureKind) &&
      (forall a :: a in predators ==> a.kind == PredatorKind) &&
      Distinct(creatures) && Distinct(predators) && Distinct(food)
    }

    /** Between frames: the lists are well formed and within their caps,
        hold no dead agent and no agent past its kind's generation counter,
        and the selection, if any, is listed. */
    ghost predicate Valid()
      reads this, creatures, predators
    {
      WellFormed() &&
      |creatures| <= MaxCreatures && |predators| <= MaxPredators &&
      (forall a :: a in creatures ==> !a.isDead && a.generation <= maxCreatureGeneration) &&
      (forall a :: a in predators ==> !a.isDead && a.generation <= maxPredatorGeneration) &&
      (selected == null || selected in creatures || selected in predators)
    }

    /** Adding a founder, as the initial population and the keys that add
        agents do: the agent joins its population when that is below its
        cap. */
    method AddFounder(kind: Kind, pos: Vec2, speedDraw: real, senseDraw: real, wanderDraw: real, heading: Vec2)
      returns (added: Agent?)
      requires Valid()
      modifies this`creatures, this`predators
      ensures Valid()
      ensures added == null <==> Population(this, kind) == old(Population(this, kind)) && Population(this, kind) >= Cap(kind)
      ensures added == null ==> creatures == old(creatures) && predators == old(predators)
      ensures added != null ==>
                fresh(added) && added.Fresh() && added.generation == 0 && added.kind == kind &&
                added.genes == FounderGenes(kind, speedDraw, senseDraw)
      ensures added != null && kind == CreatureKind ==>
                creatures == old(creatures) + [added] && predators == old(predators)
      ensures added != null && kind == PredatorKind ==>
                predators == old(predators) + [added] && creatures == old(creatures)
    {
      added := null;
      if Population(this, kind) < Cap(kind) {
        added := new Agent.Founder(kind, obstacles, pos, speedDraw, senseDraw, wanderDraw, heading);
        if kind == CreatureKind {
          creatures := creatures + [added];
        } else {
          predators := predators + [added];
        }
      }
    }

    /** The creature loop of a frame (step 1): every creature not already
        dead, in list order, takes its update; the creatures that die are
        listed for removal and the offspring are collected. */
    method UpdateCreatures(dt: real, inputs: seq<AgentInput>) returns (born: seq<Agent>, removed: seq<Agent>)
      requires WellFormed() && |inputs| == |creatures|
      modifies creatures, this`maxCreatureGeneration, this`maxPredatorGeneration
      ensures Distinct(removed)
      ensures forall a :: a in removed <==> a in creatures && a.isDead && !old(a.isDead)
      ensures forall a :: a in creatures && old(a.isDead) ==> a.isDead
      ensures Distinct(born) && |born| <= |creatures|
      ensures |creatures| >= MaxCreatures ==> born == []
      ensures forall a :: a in born ==>
                fresh(a) && a.Fresh() && a.kind == CreatureKind && a.generation <= maxCreatureGeneration
      ensures maxCreatureGeneration >= old(maxCreatureGeneration)
      ensures maxPredatorGeneration == old(maxPredatorGeneration)
    {
      born, removed := [], [];
      for i := 0 to |creatures|
        invariant Distinct(removed)
        invariant forall a :: a in removed <==> a in creatures[..i] && a.isDead && !old(a.isDead)
        invariant forall j :: i <= j < |creatures| ==> creatures[j].isDead == old(creatures[j].isDead)
        invariant forall a :: a in creatures && old(a.isDead) ==> a.isDead
        invariant Distinct(born) && |born| <= i
        invariant |creatures| >= MaxCreatures ==> born == []
        invariant forall a :: a in born ==>
                    fresh(a) && a.Fresh() && a.kind == CreatureKind && a.generation <= maxCreatureGeneration
        invariant maxCreatureGeneration >= old(maxCreatureGeneration)
        invariant maxPredatorGeneration == old(maxPredatorGeneration)
      {
        var c := creatures[i];
        assert creatures[..i + 1] == creatures[..i] + [c];
        if c.isDead {
          continue;
        }
        var outcome := c.Update(this, dt, inputs[i]);
        if outcome.Dead? {
          removed := removed + [c];
        } else if outcome.Spawned? {
          born := born + [outcome.child];
        }
      }
    }

    /** The predator loop of a frame (step 2), the same for predators, which
        look for prey among the creatures. */
    method UpdatePredators(dt: real, inputs: seq<AgentInput>) returns (born: seq<Agent>, removed: seq<Agent>)
      requires WellFormed() && |inputs| == |predators|
      modifies predators, this`maxCreatureGeneration, this`maxPredatorGeneration
      ensures Distinct(removed)
      ensures forall a :: a in removed <==> a in predators && a.isDead && !old(a.isDead)
      ensures forall a :: a in predators && old(a.isDead) ==> a.isDead
      ensures Distinct(born) && |born| <= |predators|
      ensures |predators| >= MaxPredators ==> born == []
      ensures forall a :: a in born ==>
                fresh(a) && a.Fresh() && a.kind == PredatorKind && a.generation <= maxPredatorGeneration
      ensures maxPredatorGeneration >= old(maxPredatorGeneration)
      ensures maxCreatureGeneration == old(maxCreatureGeneration)
    {
      born, removed := [], [];
      for i := 0 to |predators|
        invariant Distinct(removed)
        invariant forall a :: a in removed <==> a in predators[..i] && a.isDead && !old(a.isDead)
        invariant forall j :: i <= j < |predators| ==> predators[j].isDead == old(predators[j].isDead)
        invariant forall a :: a in predators && old(a.isDead) ==> a.isDead
        invariant Distinct(born) && |born| <= i
        invariant |predators| >= MaxPredators ==> born == []
        invariant forall a :: a in born ==>
                    fresh(a) && a.Fresh() && a.kind == PredatorKind && a.generation <= maxPredatorGeneration
        invariant maxPredatorGeneration >= old(maxPredatorGeneration)
        invariant maxCreatureGeneration == old(maxCreatureGeneration)
      {
        var p := predators[i];
        assert predators[..i + 1] == predators[..i] + [p];
        if p.isDead {
          continue;
        }
        var outcome := p.Update(this, dt, inputs[i]);
        if outcome.Dead? {
          removed := removed + [p];
        } else if outcome.Spawned? {
          born := born + [outcome.child];
        }
      }
    }

    /** One predator's turn in the hunting pass: a living predator bites the
        first living creature, in list order, whose rectangle overlaps its
        own and whose centre is closer than the sum of the radii; the prey
        dies and is listed for removal. At most one bite per predator. */
    method PredatorTurn(p: Agent, listed: seq<Agent>) returns (victim: Agent?, after: seq<Agent>)
      requires p !in creatures
      requires Distinct(listed) && forall a :: a in listed ==> a.isDead
      modifies creatures, p`energy, p`targetCreature
      ensures forall c :: c in creatures ==> c.pos == old(c.pos) && c.energy == old(c.energy)
      ensures victim == null ==>
                after == listed && p.energy == old(p.energy) &&
                (forall c :: c in creatures ==> c.isDead == old(c.isDead)) &&
                (!p.isDead ==> forall c :: c in creatures && !c.isDead ==> !Bites(p, c))
      ensures victim != null ==>
                !p.isDead && victim in creatures && !old(victim.isDead) && victim.isDead && Bites(p, victim) &&
                p.energy == old(p.energy) + PredatorHuntEnergyGain && after == listed + [victim] &&
                (forall c :: c in creatures && c != victim ==> c.isDead == old(c.isDead)) &&
                exists k :: 0 <= k < |creatures| && creatures[k] == victim &&
                  forall j :: 0 <= j < k ==> old(creatures[j].isDead) || !Bites(p, creatures[j])
    {
      victim, after := null, listed;
      if p.isDead {
        return;
      }
      for i := 0 to |creatures|
        invariant forall j :: 0 <= j < i ==> creatures[j].isDead || !Bites(p, creatures[j])
      {
        var c := creatures[i];
        if !c.isDead && Bites(p, c) {
          p.Hunt(c);
          if c !in after {
            after := after + [c];
          }
          return c, after;
        }
      }
    }

    /** The hunting pass (step 3): each living predator, in list order, takes
        its turn. The creatures listed for removal become those listed before
        and those killed now; every living predator that did not feed has no
        living creature within its bite. */
    method HuntingPass(removed: seq<Agent>) returns (listed: seq<Agent>)
      requires WellFormed()
      requires Distinct(removed) && forall a :: a in removed ==> a in creatures && a.isDead
      modifies creatures, predators
      ensures Distinct(listed)
      ensures forall a :: a in listed <==> a in removed || (a in creatures && a.isDead && !old(a.isDead))
      ensures |listed| <= |removed| + |predators|
      ensures forall c :: c in creatures ==> c.pos == old(c.pos) && c.energy == old(c.energy)
      ensures forall c :: c in creatures && old(c.isDead) ==> c.isDead
      ensures forall p :: p in predators ==>
                p.isDead == old(p.isDead) &&
                (p.energy == old(p.energy) || (!p.isDead && p.energy == old(p.energy) + PredatorHuntEnergyGain))
      ensures forall p :: p in predators && !p.isDead && p.energy == old(p.energy) ==>
                forall c :: c in creatures && !c.isDead ==> !Bites(p, c)
    {
      listed := removed;
      for i := 0 to |predators|
        invariant Distinct(listed) && forall a :: a in listed ==> a.isDead
        invariant forall a :: a in listed <==> a in removed || (a in creatures && a.isDead && !old(a.isDead))
        invariant |listed| <= |removed| + i
        invariant forall c :: c in creatures ==> c.pos == old(c.pos) && c.energy == old(c.energy)
        invariant forall c :: c in creatures && old(c.isDead) ==> c.isDead
        invariant forall p :: p in predators ==> p.pos == old(p.pos) && p.isDead == old(p.isDead)
        invariant forall j :: i <= j < |predators| ==> predators[j].energy == old(predators[j].energy)
        invariant forall j :: 0 <= j < i ==>
                    predators[j].energy == old(predators[j].energy) ||
                    (!predators[j].isDead && predators[j].energy == old(predators[j].energy) + PredatorHuntEnergyGain)
        invariant forall j :: 0 <= j < i && !predators[j].isDead && predators[j].energy == old(predators[j].energy) ==>
                    forall c :: c in creatures && !c.isDead ==> !Bites(predators[j], c)
      {
        var p := predators[i];
        assert p.kind == PredatorKind;
        if p.isDead {
          continue;
        }
        listed := HuntTurn(p, listed);
      }
    }

    /** A living predator's turn, as the hunting pass sees it: the list
        gains at most the creature it killed, and if it gained no energy no
        living creature is within its bite. */
    method HuntTurn(p: Agent, listed: seq<Agent>) returns (after: seq<Agent>)
      requires p !in creatures && !p.isDead
      requires Distinct(listed) && forall a :: a in listed ==> a.isDead
      modifies creatures, p`energy, p`targetCreature
      ensures Distinct(after) && (forall a :: a in after ==> a.isDead) && |after| <= |listed| + 1
      ensures forall a :: a in after <==> a in listed || (a in creatures && a.isDead && !old(a.isDead))
      ensures forall c :: c in creatures ==> c.pos == old(c.pos) && c.energy == old(c.energy)
      ensures forall c :: c in creatures && old(c.isDead) ==> c.isDead
      ensures p.energy == old(p.energy) || p.energy == old(p.energy) + PredatorHuntEnergyGain
      ensures p.energy == old(p.energy) ==> forall c :: c in creatures && !c.isDead ==> !Bites(p, c)
    {
      var victim;
      victim, after := PredatorTurn(p, listed);
    }

    /** One creature's turn in the eating pass: it eats the first pellet, in
        list order, that nobody has eaten this frame and whose centre is
        closer than the sum of the radii; the pellet is listed as eaten and,
        while the pellets not eaten number fewer than one and a half times
        the starting count, a new pellet is placed at `spot`. At most one
        pellet per creature. */
    method CreatureTurn(c: Agent, eaten: seq<Food>, spot: Vec2) returns (meal: Food?, after: seq<Food>)
      requires !c.isDead
      requires Distinct(food) && Distinct(eaten) && forall f :: f in eaten ==> f in food
      modifies c`energy, c`targetFood, this`food
      ensures meal == null ==>
                after == eaten && food == old(food) && c.energy == old(c.energy) &&
                forall f :: f in food && f !in eaten ==> !Reaches(c, f)
      ensures meal != null ==>
                meal in old(food) && meal !in eaten && Reaches(c, meal) && after == eaten + [meal] &&
                c.energy == old(c.energy) + FoodEnergy &&
                (exists k :: 0 <= k < |old(food)| && old(food)[k] == meal &&
                  forall j :: 0 <= j < k ==> old(food)[j] in eaten || !Reaches(c, old(food)[j])) &&
                if ((|old(food)| - |after|) as real) < (FoodCount as real) * 1.5
                then |food| == |old(food)| + 1 && food[..|old(food)|] == old(food) &&
                     fresh(food[|old(food)|]) && food[|old(food)|].pos == spot
                else food == old(food)
      ensures Distinct(food) && Distinct(after) && forall f :: f in after ==> f in food
    {
      meal, after := null, eaten;
      for j := 0 to |food|
        invariant forall k :: 0 <= k < j ==> food[k] in eaten || !Reaches(c, food[k])
      {
        var item := food[j];
        if item in eaten {
          continue;
        }
        if Reaches(c, item) {
          c.Eat(item);
          after := eaten + [item];
          if ((|food| - |after|) as real) < (FoodCount as real) * 1.5 {
            var pellet := new Food(spot);
            food := food + [pellet];
          }
          return item, after;
        }
      }
    }

    /** The eating pass (step 4): each living creature not listed for
        removal, in list order, takes its turn; `spots[i]` is where the
        replacement for creature `i`'s pellet would be placed. The pellets
        eaten are all different and were present, the list only grows, and
        every living, unlisted creature that did not feed has no original
        pellet left uneaten within its reach. */
    method EatingPass(listed: seq<Agent>, spots: seq<Vec2>) returns (eaten: seq<Food>)
      requires WellFormed() && |spots| == |creatures|
      modifies creatures, this`food
      ensures Distinct(food) && Distinct(eaten) && |eaten| <= |creatures|
      ensures forall f :: f in eaten ==> f in food
      ensures |old(food)| <= |food| <= |old(food)| + |creatures| && food[..|old(food)|] == old(food)
      ensures forall i :: |old(food)| <= i < |food| ==> fresh(food[i])
      ensures forall c :: c in creatures ==> c.pos == old(c.pos) && c.isDead == old(c.isDead)
      ensures forall c :: c in creatures ==>
                c.energy == old(c.energy) ||
                (!c.isDead && c !in listed && c.energy == old(c.energy) + FoodEnergy)
      ensures forall c :: c in creatures && !c.isDead && c !in listed && c.energy == old(c.energy) ==>
                forall f :: f in old(food) && f !in eaten ==> !Reaches(c, f)
    {
      eaten := [];
      for i := 0 to |creatures|
        invariant Distinct(food) && Distinct(eaten) && |eaten| <= i
        invariant forall f :: f in eaten ==> f in food
        invariant |old(food)| <= |food| <= |old(food)| + i && food[..|old(food)|] == old(food)
        invariant forall k :: |old(food)| <= k < |food| ==> fresh(food[k])
        invariant forall c :: c in creatures ==> c.pos == old(c.pos) && c.isDead == old(c.isDead)
        invariant forall j :: i <= j < |creatures| ==> creatures[j].energy == old(creatures[j].energy)
        invariant forall j :: 0 <= j < i ==>
                    creatures[j].energy == old(creatures[j].energy) ||
                    (!creatures[j].isDead && creatures[j] !in listed &&
                     creatures[j].energy == old(creatures[j].energy) + FoodEnergy)
        invariant forall j :: 0 <= j < i && !creatures[j].isDead && creatures[j] !in listed &&
                               creatures[j].energy == old(creatures[j].energy) ==>
                    forall f :: f in old(food) && f !in eaten ==> !Reaches(creatures[j], f)
      {
        var c := creatures[i];
        if c.isDead || c in listed {
          continue;
        }
        ghost var before := food;
        var meal;
        meal, eaten := CreatureTurn(c, eaten, spots[i]);
        assert before[..|old(food)|] == old(food);
      }
    }

    /** The selection once a frame's removals and caps are applied. */
    ghost function NextSelected(listedC: seq<Agent>, listedP: seq<Agent>, bornC: seq<Agent>, bornP: seq<Agent>): Agent?
      reads this, creatures, predators, bornC, bornP
    {
      if selected in listedC || selected in listedP ||
         selected in Unsettled(creatures, listedC, bornC, MaxCreatures) ||
         selected in Unsettled(predators, listedP, bornP, MaxPredators)
      then null else selected
    }

    /** Steps 5 to 7 of a frame: the listed agents and eaten pellets are
        removed (clearing the selection when it is listed), the offspring
        are appended, and each population is cut to its cap, weakest first
        (clearing the selection when it is cut). */
    method Commit(listedC: seq<Agent>, listedP: seq<Agent>, eaten: seq<Food>, bornC: seq<Agent>, bornP: seq<Agent>)
      requires WellFormed() && Distinct(bornC) && Distinct(bornP)
      requires forall a :: a in bornC ==> a !in creatures && a.kind == CreatureKind
      requires forall a :: a in bornP ==> a !in predators && a.kind == PredatorKind
      modifies this`food, this`creatures, this`predators, this`selected
      ensures food == Without(old(food), eaten)
      ensures creatures == old(Settled(creatures, listedC, bornC, MaxCreatures))
      ensures predators == old(Settled(predators, listedP, bornP, MaxPredators))
      ensures selected == old(NextSelected(listedC, listedP, bornC, bornP))
      ensures WellFormed()
    {
      var f, c, p, chosen := Settle(listedC, listedP, eaten, bornC, bornP);
      Store(f, c, p, chosen);
    }

    /** Writes the settled lists and selection back. */
    method Store(f: seq<Food>, c: seq<Agent>, p: seq<Agent>, chosen: Agent?)
      modifies this`food, this`creatures, this`predators, this`selected
      ensures food == f && creatures == c && predators == p && selected == chosen
    {
      food, creatures, predators, selected := f, c, p, chosen;
    }

    /** What steps 5 to 7 compute, before anything is written back. */
    method Settle(listedC: seq<Agent>, listedP: seq<Agent>, eaten: seq<Food>, bornC: seq<Agent>, bornP: seq<Agent>)
      returns (f: seq<Food>, c: seq<Agent>, p: seq<Agent>, chosen: Agent?)
      requires WellFormed() && Distinct(bornC) && Distinct(bornP)
      requires forall a :: a in bornC ==> a !in creatures && a.kind == CreatureKind
      requires forall a :: a in bornP ==> a !in predators && a.kind == PredatorKind
      ensures f == Without(food, eaten) && Distinct(f)
      ensures c == old(Settled(creatures, listedC, bornC, MaxCreatures)) && Distinct(c)
      ensures p == old(Settled(predators, listedP, bornP, MaxPredators)) && Distinct(p)
      ensures (forall a :: a in c ==> a.kind == CreatureKind) && (forall a :: a in p ==> a.kind == PredatorKind)
      ensures chosen == old(NextSelected(listedC, listedP, bornC, bornP))
    {
      var droppedC, droppedP;
      c, p, droppedC, droppedP := SettleAgents(listedC, listedP, bornC, bornP);
      f := RemoveListed(food, eaten);
      chosen := selected;
      if chosen in listedC || chosen in listedP || chosen in droppedC || chosen in droppedP {
        chosen := null;
      }
    }

    /** Steps 5 to 7 on both populations. */
    method SettleAgents(listedC: seq<Agent>, listedP: seq<Agent>, bornC: seq<Agent>, bornP: seq<Agent>)
      returns (c: seq<Agent>, p: seq<Agent>, droppedC: seq<Agent>, droppedP: seq<Agent>)
      requires WellFormed() && Distinct(bornC) && Distinct(bornP)
      requires forall a :: a in bornC ==> a !in creatures && a.kind == CreatureKind
      requires forall a :: a in bornP ==> a !in predators && a.kind == PredatorKind
      ensures c == old(Settled(creatures, listedC, bornC, MaxCreatures)) && Distinct(c)
      ensures p == old(Settled(predators, listedP, bornP, MaxPredators)) && Distinct(p)
      ensures droppedC == old(Unsettled(creatures, listedC, bornC, MaxCreatures))
      ensures droppedP == old(Unsettled(predators, listedP, bornP, MaxPredators))
      ensures (forall a :: a in c ==> a.kind == CreatureKind) && (forall a :: a in p ==> a.kind == PredatorKind)
    {
      var cs, ps := creatures, predators;
      c, droppedC := SettlePopulation(cs, listedC, bornC, MaxCreatures);
      p, droppedP := SettlePopulation(ps, listedP, bornP, MaxPredators);
    }

    /** Food regrowth (step 8): when fewer than half the starting pellets
        remain and the draw falls below 0.1, ten pellets are placed, at
        `spots`. */
    method Regrow(draw: real, spots: seq<Vec2>)
      requires |spots| >= RegrowBatch
      modifies this`food
      ensures |old(food)| < FoodCount / 2 && draw < RegrowChance ==>
                |food| == |old(food)| + RegrowBatch && food[..|old(food)|] == old(food) &&
                forall i :: |old(food)| <= i < |food| ==> fresh(food[i]) && food[i].pos == spots[i - |old(food)|]
      ensures !(|old(food)| < FoodCount / 2 && draw < RegrowChance) ==> food == old(food)
      ensures Distinct(old(food)) ==> Distinct(food)
    {
      if |food| < FoodCount / 2 && draw < RegrowChance {
        for k := 0 to RegrowBatch
          invariant |food| == |old(food)| + k && food[..|old(food)|] == old(food)
          invariant forall i :: |old(food)| <= i < |food| ==> fresh(food[i]) && food[i].pos == spots[i - |old(food)|]
          invariant Distinct(old(food)) ==> Distinct(food)
        {
          var pellet := new Food(spots[k]);
          food := food + [pellet];
        }
      }
    }

    /** One frame of the main loop. Unless paused: every creature and then
        every predator is updated, predators hunt, creatures eat, the dead,
        the eaten and the offspring are settled, each population is capped
        and scarce food may regrow. Afterwards the world is valid again: in
        particular no dead agent is listed and both populations are within
        their caps. Every listed agent was listed before or was born during
        the frame, and the selection is kept or cleared. */
    method Tick(dt: real, creatureInputs: seq<AgentInput>, predatorInputs: seq<AgentInput>,
                mealSpots: seq<Vec2>, regrowDraw: real, regrowSpots: seq<Vec2>)
      requires Valid()
      requires |creatureInputs| == |creatures| && |predatorInputs| == |predators|
      requires |mealSpots| == |creatures| && |regrowSpots| >= RegrowBatch
      modifies this, creatures, predators
      ensures Valid()
      ensures old(paused) ==> creatures == old(creatures) && predators == old(predators) && food == old(food)
      ensures forall a :: a in creatures ==> a in old(creatures) || fresh(a)
      ensures forall a :: a in predators ==> a in old(predators) || fresh(a)
      ensures maxCreatureGeneration >= old(maxCreatureGeneration)
      ensures maxPredatorGeneration >= old(maxPredatorGeneration)
      ensures selected == null || selected == old(selected)
    {
      if paused {
        return;
      }
      var bornC, removedC := UpdateCreatures(dt, creatureInputs);
      var bornP, removedP := UpdatePredators(dt, predatorInputs);
      var listedC := HuntingPass(removedC);
      var eaten := EatingPass(listedC, mealSpots);
      Conclude(listedC, removedP, eaten, bornC, bornP, regrowDraw, regrowSpots);
    }

    /** Steps 5 to 8 of a frame, from the lists the passes leave: every dead
        agent is listed, the offspring are new living agents of the right
        kind. */
    method Conclude(listedC: seq<Agent>, listedP: seq<Agent>, eaten: seq<Food>, bornC: seq<Agent>, bornP: seq<Agent>,
                    regrowDraw: real, regrowSpots: seq<Vec2>)
      requires WellFormed() && Distinct(bornC) && Distinct(bornP) && |regrowSpots| >= RegrowBatch
      requires forall a :: a in bornC ==>
                 a !in creatures && a.kind == CreatureKind && !a.isDead && a.generation <= maxCreatureGeneration
      requires forall a :: a in bornP ==>
                 a !in predators && a.kind == PredatorKind && !a.isDead && a.generation <= maxPredatorGeneration
      requires forall a :: a in creatures ==> (a.isDead ==> a in listedC) && a.generation <= maxCreatureGeneration
      requires forall a :: a in predators ==> (a.isDead ==> a in listedP) && a.generation <= maxPredatorGeneration
      requires selected == null || selected in creatures || selected in predators
      modifies this`food, this`creatures, this`predators, this`selected
      ensures Valid()
      ensures forall a :: a in creatures ==> (a in old(creatures) && a !in listedC) || a in bornC
      ensures forall a :: a in predators ==> (a in old(predators) && a !in listedP) || a in bornP
      ensures selected == null || selected == old(selected)
    {
      SettledMembers(creatures, listedC, bornC, MaxCreatures);
      SettledMembers(predators, listedP, bornP, MaxPredators);
      SettledLive(creatures, listedC, bornC, MaxCreatures, maxCreatureGeneration);
      SettledLive(predators, listedP, bornP, MaxPredators, maxPredatorGeneration);
      Commit(listedC, listedP, eaten, bornC, bornP);
      assert Valid();
      Regrow(regrowDraw, regrowSpots);
    }

    /** Steps 5 to 7 on one population: what is kept and what the cap
        cuts. */
    static method SettlePopulation(pop: seq<Agent>, listed: seq<Agent>, born: seq<Agent>, cap: nat)
      returns (kept: seq<Agent>, dropped: seq<Agent>)
      requires Distinct(pop) && Distinct(born) && forall a :: a in born ==> a !in pop
      ensures kept == old(Settled(pop, listed, born, cap)) && dropped == old(Unsettled(pop, listed, born, cap))
      ensures Distinct(kept)
      ensures forall a :: a in kept ==> a in pop || a in born
    {
      var joined := Without(pop, listed) + born;
      JoinedDistinct(pop, listed, born);
      CullDistinct(joined, cap);
      WithoutSubset(pop, listed);
      kept, dropped := CullPopulation(joined, cap);
    }
  }

  /** A population at the end of a frame: the listed agents removed, the
      offspring appended, and the cap applied. */
  ghost function Settled(pop: seq<Agent>, removed: seq<Agent>, added: seq<Agent>, cap: nat): seq<Agent>
    reads pop, added
  {
    var joined := Without(pop, removed) + added;
    WithoutSubset(pop, removed);
    assert forall i :: 0 <= i < |joined| ==> joined[i] in pop || joined[i] in added;
    CullAgents(joined, cap)
  }

  /** The agents the cap cuts at the end of a frame. */
  ghost function Unsettled(pop: seq<Agent>, removed: seq<Agent>, added: seq<Agent>, cap: nat): seq<Agent>
    reads pop, added
  {
    var joined := Without(pop, removed) + added;
    WithoutSubset(pop, removed);
    assert forall i :: 0 <= i < |joined| ==> joined[i] in pop || joined[i] in added;
    CulledAgents(joined, cap)
  }

  /** Removing the listed agents and appending the offspring leaves no
      agent twice. */
  lemma JoinedDistinct(pop: seq<Agent>, listed: seq<Agent>, born: seq<Agent>)
    requires Distinct(pop) && Distinct(born) && forall a :: a in born ==> a !in pop
    ensures Distinct(Without(pop, listed) + born)
  {
    WithoutDistinct(pop, listed);
    forall a | a in Without(pop, listed)
      ensures a !in born
    {
      WithoutMembers(pop, listed, a);
    }
    DistinctConcat(Without(pop, listed), born);
  }

  /** Every agent a frame's end leaves was listed and not removed, or was
      born during the frame; every listed agent that is not removed is kept
      or cut; at most `cap` remain. */
  lemma SettledMembers(pop: seq<Agent>, removed: seq<Agent>, added: seq<Agent>, cap: nat)
    ensures forall a :: a in Settled(pop, removed, added, cap) ==> (a in pop && a !in removed) || a in added
    ensures forall a :: a in pop && a !in removed ==>
              a in Settled(pop, removed, added, cap) || a in Unsettled(pop, removed, added, cap)
    ensures |Settled(pop, removed, added, cap)| <= cap
  {
    var joined := Without(pop, removed) + added;
    forall a | a in Settled(pop, removed, added, cap)
      ensures (a in pop && a !in removed) || a in added
    {
      WithoutMembers(pop, removed, a);
    }
    forall a | a in pop && a !in removed
      ensures a in Settled(pop, removed, added, cap) || a in Unsettled(pop, removed, added, cap)
    {
      WithoutMembers(pop, removed, a);
      assert a in joined;
    }
  }

  /** When every dead agent of a population is listed for removal and the
      offspring are alive, the settled population holds no dead agent; the
      generation bound carries over likewise. */
  lemma SettledLive(pop: seq<Agent>, removed: seq<Agent>, added: seq<Agent>, cap: nat, gen: nat)
    requires forall a :: a in pop ==> (a.isDead ==> a in removed) && a.generation <= gen
    requires forall a :: a in added ==> !a.isDead && a.generation <= gen
    ensures forall a :: a in Settled(pop, removed, added, cap) ==> !a.isDead && a.generation <= gen
  {
    SettledMembers(pop, removed, added, cap);
  }

  /** Each agent paired with its energy, the key the cull sorts by. */
  function Keyed(s: seq<Agent>): (r: seq<(Agent, real)>)
    reads s
    ensures Firsts(r) == s
  {
    seq(|s|, i requires 0 <= i < |s| reads s => (s[i], s[i].energy))
  }

  /** An entry of the keyed population is one of its agents with that
      agent's energy. */
  lemma KeyedEntry(s: seq<Agent>, x: (Agent, real))
    requires x in Keyed(s)
    ensures x.0 in s && x.1 == x.0.energy
  {
    var k :| 0 <= k < |s| && Keyed(s)[k] == x;
  }

  /** The population a cap leaves: the whole list when within the cap,
      otherwise the `cap` most energetic agents in ascending order of
      energy, ties in their earlier order. */
  function CullAgents(s: seq<Agent>, cap: nat): (kept: seq<Agent>)
    reads s
    ensures |kept| == if |s| <= cap then |s| else cap
    ensures |s| <= cap ==> kept == s
    ensures forall a :: a in kept ==> a in s
  {
    CullFirstsPartition(Keyed(s), cap);
    Firsts(Cull(Keyed(s), cap))
  }

  /** The agents a cap cuts: all from the population, and with what is kept
      they make up the whole population. */
  function CulledAgents(s: seq<Agent>, cap: nat): (dropped: seq<Agent>)
    reads s
    ensures forall a :: a in dropped ==> a in s
    ensures forall a :: a in s ==> a in CullAgents(s, cap) || a in dropped
  {
    CullFirstsPartition(Keyed(s), cap);
    Firsts(Culled(Keyed(s), cap))
  }

  /** Step 7 on one population: above the cap the list is sorted by energy
      (stably) and its head, the excess, is cut. */
  method CullPopulation(pop: seq<Agent>, cap: nat) returns (kept: seq<Agent>, dropped: seq<Agent>)
    ensures kept == old(CullAgents(pop, cap)) && dropped == old(CulledAgents(pop, cap))
  {
    if |pop| <= cap {
      return pop, [];
    }
    var sorted := Firsts(StableSort(Keyed(pop)));
    var n := |pop| - cap;
    CullFirstsSplit(Keyed(pop), cap);
    kept, dropped := sorted[n..], sorted[..n];
  }

  /** No agent the cap cuts has more energy than any agent it keeps. */
  lemma CullKeepsFittest(s: seq<Agent>, cap: nat)
    ensures forall i, j :: 0 <= i < |CulledAgents(s, cap)| && 0 <= j < |CullAgents(s, cap)| ==>
              CulledAgents(s, cap)[i].energy <= CullAgents(s, cap)[j].energy
  {
    var kept := Cull(Keyed(s), cap);
    var dropped := Culled(Keyed(s), cap);
    CullDropsLowest(Keyed(s), cap);
    CullPartition(Keyed(s), cap);
    forall i, j | 0 <= i < |dropped| && 0 <= j < |kept|
      ensures Firsts(dropped)[i].energy <= Firsts(kept)[j].energy
    {
      KeyedEntry(s, dropped[i]);
      KeyedEntry(s, kept[j]);
    }
  }

  /** The cull of a population without duplicates keeps and cuts no agent
      twice. */
  lemma CullDistinct(s: seq<Agent>, cap: nat)
    requires Distinct(s)
    ensures Distinct(CullAgents(s, cap)) && Distinct(CulledAgents(s, cap))
  {
    CullDistinctEntries(Keyed(s), cap);
  }
}
