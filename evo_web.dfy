/** The per-tick engine of the simulator's JavaScript port
    (web_version/script.js): the same ecosystem as the Python version, with
    the port's own constants and its own deviations, modelled as they stand.
    The no-argument `random()` evaluates to NaN, so crossover always takes
    the second parent's traits and offspring never mutate. Mating is settled
    by a coin flip rather than by comparing identities, and with no cap
    check. `hunt` marks its prey through a separate `is_dead` property that
    the lifecycle never reads. Agents near a wall drop their targets. The
    selection is cleared only when a cull drops its agent.

    Randomness, spawn positions and headings are parameters: each agent's
    update is handed the direction its move would take once normalisation,
    separation, wandering and wall avoidance are applied, and the
    `Math.random()` values it would consume. */
module EvoWeb {
  import opened Geometry
  import opened Genome
  import opened Lifecycle
  import opened Lists
  import opened Ranking
  import JS = JsNumbers
  import WebVectors
  import Spatial

  const Width: real := 800.0
  const Height: real := 600.0
  const MaxCreatures: nat := 100
  const MaxPredators: nat := 15
  const FoodCount: nat := 100
  const FoodEnergy: real := 100.0
  const FoodRadius: real := 3.0
  const CreatureMatingRange: real := 15.0
  const CreatureMatingCooldown: real := 1.0
  const PredatorReproductionCost: real := 120.0
  const PredatorMatingCooldown: real := 5.0
  const PredatorHuntEnergyGain: real := 120.0
  /** Pixels per second of one unit of speed. */
  const MoveScale: real := 10.0
  /** Fleeing runs 1.2 times faster and costs 1.5 times the energy. */
  const EvadeSpeedFactor: real := 1.2
  const EvadeCostFactor: real := 1.5
  /** An offspring is placed up to this many pixels (an integer) from its
      parent along each axis. */
  const Jitter: real := 5.0

  datatype Kind = CreatureKind | PredatorKind

  function Rates(k: Kind): KindRates {
    match k
    case CreatureKind => KindRates(0.15, 100.0, 50.0)
    case PredatorKind => KindRates(0.12, 200.0, 50.0)
  }

  function MoveCost(k: Kind): real {
    match k
    case CreatureKind => 0.5
    case PredatorKind => 0.5
  }

  function Radius(k: Kind): real {
    match k
    case CreatureKind => 8.0
    case PredatorKind => 10.0
  }

  function InitialEnergy(k: Kind): real {
    match k
    case CreatureKind => 100.0
    case PredatorKind => 150.0
  }

  function TraitBounds(k: Kind): Bounds {
    match k
    case CreatureKind => Bounds(0.5, 5.0, 10.0, 100.0)
    case PredatorKind => Bounds(0.8, 5.0, 20.0, 150.0)
  }

  function MutationRate(k: Kind): real {
    match k
    case CreatureKind => 0.5
    case PredatorKind => 0.1
  }

  function MatingCooldown(k: Kind): real {
    match k
    case CreatureKind => CreatureMatingCooldown
    case PredatorKind => PredatorMatingCooldown
  }

  function MutationStrength(k: Kind): real {
    match k
    case CreatureKind => 0.5
    case PredatorKind => 0.2
  }

  /** The `Math.random()` values one offspring's creation consumes: the one
      inside each argument-less `random()` of the two mutation tests and of
      the two mutation sizes, and the one inside each `random(-5, 5)` of the
      spawn jitter. */
  datatype OffspringDraws = OffspringDraws(speedRate: real, speedSize: real, senseRate: real, senseSize: real,
                                           jitterX: real, jitterY: real)

  /** What one agent's update is handed for one tick: the heading, the
      mating coin, the draws inside the two `random()` calls of
      `crossoverGenes`, and the offspring draws. */
  datatype AgentInput = AgentInput(heading: Vec2, coin: real, speedPick: real, sensePick: real,
                                   offspring: OffspringDraws)

  /** `crossoverGenes`: each trait is taken from the first parent when
      `random() < 0.5`. That test is never true, so the child always gets
      the second parent's traits. */
  function CrossoverGenes(g1: Genes, g2: Genes, speedPick: real, sensePick: real): (c: Genes)
    ensures c == g2
  {
    Genes(if JS.Less(JS.Random(JS.Omitted, JS.Omitted, speedPick), JS.Num(0.5)) then g1.speed else g2.speed,
          if JS.Less(JS.Random(JS.Omitted, JS.Omitted, sensePick), JS.Num(0.5)) then g1.sense else g2.sense)
  }

  /** One trait of `createOffspring`'s mutation: when `random() < rate` the
      trait moves by `(random() * 2 - 1) * strength * value` and is clamped
      to [lo, hi]. The test is never true, so the trait is kept as given. */
  function MutatedTrait(value: real, rateDraw: real, sizeDraw: real, rate: real, strength: real,
                        lo: real, hi: real): (r: JS.Number)
    ensures r == JS.Num(value)
  {
    if JS.Less(JS.Random(JS.Omitted, JS.Omitted, rateDraw), JS.Num(rate)) then
      var size := JS.Random(JS.Omitted, JS.Omitted, sizeDraw);
      var mutation := JS.Times(JS.Times(JS.Minus(JS.Times(size, JS.Num(2.0)), JS.Num(1.0)), JS.Num(strength)),
                               JS.Num(value));
      JS.Clamp(JS.Plus(JS.Num(value), mutation), lo, hi)
    else JS.Num(value)
  }

  /** The offset `random(-5, 5)` adds to a coordinate of an offspring's
      position: an integer in [-5, 5] for every draw. */
  function JitterOffset(u: real): (d: real)
    ensures JS.IsDraw(u) ==> JS.IsInteger(d) && -Jitter <= d <= Jitter
  {
    var r := JS.Random(JS.Given(-Jitter), JS.Given(Jitter), u);
    if JS.IsDraw(u) then
      JS.RandomInRange(-Jitter, Jitter, u);
      r.value
    else r.value
  }

  /** A food pellet; it never changes once placed. */
  class Food {
    const pos: Vec2
    const radius: real

    constructor (pos: Vec2)
      ensures this.pos == pos && radius == FoodRadius
    {
      this.pos := pos;
      radius := FoodRadius;
    }
  }

  /** The filters `findClosestAgent` is called with: none (predators to
      flee), free mates (other creatures that are ready and unpartnered) and
      prey not marked dead by a hunt. */
  datatype Filter = Everyone | FreeMate | Unmarked

  /** How a creature's update for one tick ended. */
  datatype CreatureAction = Expired | Crashed | Fled | Courted | Foraged

  class Agent {
    const kind: Kind
    const generation: nat
    const genes: Genes
    const radius: real := Radius(kind)
    var pos: Vec2
    var energy: real
    var age: real
    var isDead: bool
    /** The `is_dead` property: a second flag, distinct from `isDead`, that
        only `hunt` sets (on its prey); absent, hence false, until then. */
    var markedDead: bool
    var readyToMate: bool
    var matingCooldown: real
    // Creature targets.
    var targetFood: Food?
    var targetPartner: Agent?
    var matingPartner: Agent?
    // Predator target.
    var targetCreature: Agent?

    /** `new Creature(x, y, genes, generation)` or `new Predator(...)`: a
        newly built agent of the kind, at the given position, with the given
        genes and generation. */
    constructor (kind: Kind, pos: Vec2, genes: Genes, generation: nat)
      ensures this.kind == kind && this.pos == pos && this.genes == genes && this.generation == generation
      ensures Fresh()
    {
      this.kind := kind;
      this.generation := generation;
      this.genes := genes;
      this.pos := pos;
      energy := InitialEnergy(kind);
      age := 0.0;
      isDead := false;
      markedDead := false;
      readyToMate := false;
      matingCooldown := 0.0;
      targetFood := null;
      targetPartner := null;
      matingPartner := null;
      targetCreature := null;
    }

    /** The state of a newly built agent. */
    ghost predicate Fresh()
      reads this
    {
      energy == InitialEnergy(kind) && age == 0.0 && !isDead && !markedDead && !readyToMate &&
      matingCooldown == 0.0 &&
      targetFood == null && targetPartner == null && matingPartner == null && targetCreature == null
    }

    ghost function Vitals(): Vitals
      reads this
    {
      Lifecycle.Vitals(age, energy, matingCooldown, readyToMate, isDead)
    }

    /** `updateBasicState`: one lifecycle step; the answer is whether the
        agent is now dead (already or newly). */
    method UpdateBasicState(dt: real) returns (gone: bool)
      modifies this`age, this`energy, this`matingCooldown, this`readyToMate, this`isDead
      ensures Vitals() == Step(old(Vitals()), Rates(kind), dt)
      ensures gone == isDead
    {
      if isDead {
        return true;
      }
      age := age + dt;
      energy := energy - Rates(kind).decay * dt;
      if matingCooldown > 0.0 {
        matingCooldown := matingCooldown - dt;
        readyToMate := false;
      } else if energy >= Rates(kind).readyThreshold {
        readyToMate := true;
      } else {
        readyToMate := false;
      }
      if energy <= 0.0 || age >= Rates(kind).maxAge {
        isDead := true;
        return true;
      }
      return false;
    }

    /** `checkObstacleCollision`: a living agent whose circle collides with
        an obstacle dies. */
    method CheckObstacleCollision(obstacles: seq<WebVectors.Obstacle>) returns (hit: bool)
      modifies this`isDead
      ensures old(isDead) ==> !hit && isDead
      ensures !old(isDead) ==> (hit <==> exists o :: o in obstacles && o.CollidesWithCircle(pos, radius))
      ensures !old(isDead) ==> isDead == hit
    {
      if isDead {
        return false;
      }
      for i := 0 to |obstacles|
        invariant forall j :: 0 <= j < i ==> !obstacles[j].CollidesWithCircle(pos, radius)
      {
        if obstacles[i].CollidesWithCircle(pos, radius) {
          assert obstacles[i] in obstacles;
          isDead := true;
          return true;
        }
      }
      return false;
    }

    /** `applyMovement`: a living agent with a non-zero heading moves by
        heading * speed * dt * 10, is clamped to the screen, and pays its
        kind's move cost times speed, multiplier and dt. */
    method ApplyMovement(dt: real, heading: Vec2, speed: real, costFactor: real)
      modifies this`pos, this`energy
      ensures isDead || MagSq(heading) == 0.0 ==> pos == old(pos) && energy == old(energy)
      ensures !isDead && MagSq(heading) != 0.0 ==>
                pos == Moved(old(pos), heading, speed * dt, radius) &&
                energy == old(energy) - MoveCost(kind) * speed * costFactor * dt
      ensures !isDead && MagSq(heading) != 0.0 ==> InBox(pos, radius, Width, Height)
    {
      if isDead || MagSq(heading) == 0.0 {
        return;
      }
      pos := Moved(pos, heading, speed * dt, radius);
      energy := energy - MoveCost(kind) * speed * costFactor * dt;
    }

    /** Whether `a` passes the filter `f`. */
    predicate Passes(f: Filter, a: Agent)
      reads a`readyToMate, a`matingPartner, a`markedDead
    {
      match f
      case Everyone => true
      case FreeMate => a != this && a.readyToMate && a.matingPartner == null
      case Unmarked => !a.markedDead
    }

    /** Whether `findClosestAgent` with filter `f` considers `a`: not this
        agent, not dead (`isDead`), and passing the filter. */
    predicate Considers(f: Filter, a: Agent)
      reads a`isDead, a`readyToMate, a`matingPartner, a`markedDead
    {
      a != this && !a.isDead && Passes(f, a)
    }

    /** Which of the candidates `findClosestAgent` considers, in order. */
    function Considered(f: Filter, candidates: seq<Agent>): (e: seq<bool>)
      reads candidates
      ensures |e| == |candidates| && forall i :: 0 <= i < |candidates| ==> e[i] == Considers(f, candidates[i])
    {
      seq(|candidates|, i requires 0 <= i < |candidates| reads candidates => Considers(f, candidates[i]))
    }

    /** `c` is what `findClosestAgent` with filter `f` returns from `cands`:
        a considered candidate strictly inside the radius that no considered
        candidate is closer than, and every considered candidate listed
        before it is strictly farther (the scan keeps the first of equally
        close ones). */
    ghost predicate ClosestOf(f: Filter, cands: seq<Agent>, radiusSq: real, c: Agent)
      reads this`pos, cands`pos, cands`isDead, cands`readyToMate, cands`matingPartner, cands`markedDead
    {
      c in cands && Considers(f, c) && DistSq(pos, c.pos) < radiusSq &&
      (forall a :: a in cands && Considers(f, a) ==> DistSq(pos, a.pos) >= DistSq(pos, c.pos)) &&
      exists k :: 0 <= k < |cands| && cands[k] == c &&
        forall j :: 0 <= j < k && Considers(f, cands[j]) ==> DistSq(pos, cands[j].pos) > DistSq(pos, c.pos)
    }

    /** `findClosestAgent`: the first candidate it considers at the least
        squared distance strictly inside `radiusSq`, or null and `radiusSq`. */
    method FindClosestAgent(candidates: seq<Agent>, radiusSq: real, f: Filter) returns (closest: Agent?, distSq: real)
      ensures closest == null ==> distSq == radiusSq
      ensures closest == null ==>
                forall a :: a in candidates && Considers(f, a) ==> DistSq(pos, a.pos) >= radiusSq
      ensures closest != null ==>
                closest in candidates && Considers(f, closest) &&
                distSq == DistSq(pos, closest.pos) && distSq < radiusSq
      ensures closest != null ==>
                forall a :: a in candidates && Considers(f, a) ==> DistSq(pos, a.pos) >= distSq
      ensures closest != null ==>
                exists k :: 0 <= k < |candidates| && candidates[k] == closest &&
                  forall j :: 0 <= j < k && Considers(f, candidates[j]) ==> DistSq(pos, candidates[j].pos) > distSq
    {
      var points := Positions(candidates);
      var eligible := Considered(f, candidates);
      var found;
      found, distSq := Spatial.NearestIndex(pos, points, eligible, radiusSq);
      if found.None? {
        closest := null;
        forall a | a in candidates && Considers(f, a)
          ensures DistSq(pos, a.pos) >= radiusSq
        {
          var i :| 0 <= i < |candidates| && candidates[i] == a;
          assert eligible[i];
        }
      } else {
        var k := found.value;
        closest := candidates[k];
        forall a | a in candidates && Considers(f, a)
          ensures DistSq(pos, a.pos) >= distSq
        {
          var i :| 0 <= i < |candidates| && candidates[i] == a;
          assert eligible[i];
        }
        forall j | 0 <= j < k && Considers(f, candidates[j])
          ensures DistSq(pos, candidates[j].pos) > distSq
        {
          assert eligible[j];
        }
      }
    }

    /** `f` is what the scan over `foods` returns: a pellet strictly inside
        the radius, no pellet closer, every pellet before it strictly farther. */
    ghost predicate ClosestFoodOf(foods: seq<Food>, radiusSq: real, f: Food)
      reads this`pos
    {
      f in foods && DistSq(pos, f.pos) < radiusSq &&
      (forall g :: g in foods ==> DistSq(pos, g.pos) >= DistSq(pos, f.pos)) &&
      exists k :: 0 <= k < |foods| && foods[k] == f &&
        forall j :: 0 <= j < k ==> DistSq(pos, foods[j].pos) > DistSq(pos, f.pos)
    }

    /** The creature's scan over the food list with `findClosestAgent`: a
        pellet is never the creature and has no `isDead` property, so every
        pellet is considered. */
    method FindClosestFood(foods: seq<Food>, radiusSq: real) returns (closest: Food?, distSq: real)
      ensures closest == null ==> distSq == radiusSq
      ensures closest == null ==> forall f :: f in foods ==> DistSq(pos, f.pos) >= radiusSq
      ensures closest != null ==>
                closest in foods && distSq == DistSq(pos, closest.pos) && distSq < radiusSq
      ensures closest != null ==> forall f :: f in foods ==> DistSq(pos, f.pos) >= distSq
      ensures closest != null ==>
                exists k :: 0 <= k < |foods| && foods[k] == closest &&
                  forall j :: 0 <= j < k ==> DistSq(pos, foods[j].pos) > distSq
    {
      var points := seq(|foods|, i requires 0 <= i < |foods| => foods[i].pos);
      var eligible := seq(|foods|, i => true);
      var found;
      found, distSq := Spatial.NearestIndex(pos, points, eligible, radiusSq);
      if found.None? {
        closest := null;
        forall f | f in foods
          ensures DistSq(pos, f.pos) >= radiusSq
        {
          var i :| 0 <= i < |foods| && foods[i] == f;
          assert eligible[i];
        }
      } else {
        var k := found.value;
        closest := foods[k];
        forall f | f in foods
          ensures DistSq(pos, f.pos) >= distSq
        {
          var i :| 0 <= i < |foods| && foods[i] == f;
          assert eligible[i];
        }
        forall j | 0 <= j < k
          ensures DistSq(pos, foods[j].pos) > distSq
        {
          assert eligible[j];
        }
      }
    }

    /** `createOffspring`: an agent of this kind one generation later, with
        the given genes after the mutation (which never fires), placed at
        this agent's position plus an integer jitter of at most 5 pixels per
        axis; the position is not clamped. */
    method CreateOffspring(childGenes: Genes, d: OffspringDraws) returns (child: Agent)
      ensures fresh(child) && child.Fresh()
      ensures child.kind == kind && child.generation == generation + 1 && child.genes == childGenes
      ensures child.pos == Vec2(pos.x + JitterOffset(d.jitterX), pos.y + JitterOffset(d.jitterY))
    {
      var b := TraitBounds(kind);
      var speed := MutatedTrait(childGenes.speed, d.speedRate, d.speedSize, MutationRate(kind),
                                MutationStrength(kind), b.minSpeed, b.maxSpeed);
      var sense := MutatedTrait(childGenes.sense, d.senseRate, d.senseSize, MutationRate(kind),
                                MutationStrength(kind), b.minSense, b.maxSense);
      child := new Agent(kind, Vec2(pos.x + JitterOffset(d.jitterX), pos.y + JitterOffset(d.jitterY)),
                         Genes(speed.value, sense.value), generation + 1);
    }

    /** This agent's current mating partner, as a set, for frames. */
    function PartnerSet(): set<Agent>
      reads this`matingPartner
    {
      if matingPartner == null then {} else {matingPartner}
    }

    /** `eat`: a living creature gains FOOD_ENERGY, lists the pellet for
        removal unless it is listed already, and drops it as its target. */
    method Eat(w: World, item: Food)
      modifies this`energy, this`targetFood, w`foodToRemove
      ensures isDead ==>
                energy == old(energy) && targetFood == old(targetFood) && w.foodToRemove == old(w.foodToRemove)
      ensures !isDead ==> energy == old(energy) + FoodEnergy
      ensures !isDead ==> w.foodToRemove == old(w.foodToRemove) + (if item in old(w.foodToRemove) then [] else [item])
      ensures !isDead ==> targetFood == (if old(targetFood) == item then null else old(targetFood))
    {
      if !isDead {
        energy := energy + FoodEnergy;
        if item !in w.foodToRemove {
          w.foodToRemove := w.foodToRemove + [item];
        }
        if targetFood == item {
          targetFood := null;
        }
      }
    }

    /** `hunt`: a living predator marks a prey that is not marked yet through
        `is_dead`, gains the hunt energy, lists the prey for removal unless
        it is listed already, and drops it as its target; in every other case
        nothing changes. The prey's `isDead` is never touched, so a second
        hunt on it finds it marked and has no effect. */
    method Hunt(w: World, prey: Agent)
      modifies prey`markedDead, this`energy, this`targetCreature, w`creaturesToRemove
      ensures old(isDead) || old(prey.markedDead) ==>
                prey.markedDead == old(prey.markedDead) && energy == old(energy) &&
                targetCreature == old(targetCreature) && w.creaturesToRemove == old(w.creaturesToRemove)
      ensures !old(isDead) && !old(prey.markedDead) ==>
                prey.markedDead && energy == old(energy) + PredatorHuntEnergyGain &&
                w.creaturesToRemove == old(w.creaturesToRemove) + (if prey in old(w.creaturesToRemove) then [] else [prey]) &&
                targetCreature == (if old(targetCreature) == prey then null else old(targetCreature))
    {
      if !isDead && !prey.markedDead {
        prey.markedDead := true;
        energy := energy + PredatorHuntEnergyGain;
        if prey !in w.creaturesToRemove {
          w.creaturesToRemove := w.creaturesToRemove + [prey];
        }
        if targetCreature == prey {
          targetCreature := null;
        }
      }
    }

    /** The side effect of wall avoidance (the margin is the radius plus one
        pixel): an agent whose push away from the walls is non-zero drops
        every target, its mating partner included, without telling the
        partner. */
    method AvoidWalls()
      modifies this`targetFood, this`targetPartner, this`matingPartner, this`targetCreature
      ensures NearWall(pos, radius) ==>
                targetFood == null && targetPartner == null && matingPartner == null && targetCreature == null
      ensures !NearWall(pos, radius) ==>
                targetFood == old(targetFood) && targetPartner == old(targetPartner) &&
                matingPartner == old(matingPartner) && targetCreature == old(targetCreature)
    {
      var push := WallPush(pos, radius);
      if MagSq(push) > 0.0 {
        targetFood := null;
        targetPartner := null;
        matingPartner := null;
        targetCreature := null;
      }
    }

    /** Step 1 of a creature's update: it flees from the closest predator it
        senses, dropping its food target, its target partner and its mating
        partner (without telling the partner). That happens exactly when a
        living predator lies strictly inside the sense radius. */
    method Evade(w: World, senseSq: real) returns (evading: bool)
      modifies this`targetFood, this`targetPartner, this`matingPartner
      ensures evading <==> exists p :: p in w.predators && Considers(Everyone, p) && DistSq(pos, p.pos) < senseSq
      ensures evading ==> targetFood == null && targetPartner == null && matingPartner == null
      ensures !evading ==>
                targetFood == old(targetFood) && targetPartner == old(targetPartner) &&
                matingPartner == old(matingPartner)
    {
      var closest, _ := FindClosestAgent(w.predators, senseSq, Everyone);
      evading := closest != null;
      if evading {
        targetFood := null;
        targetPartner := null;
        matingPartner := null;
      }
    }

    /** Step 2 of a creature's update, taken when it is not fleeing and is
        ready to mate. A partner that is not marked by a hunt and is ready
        (whether or not it is still alive or listed) is mated with inside the
        mating range (`Mate`) and approached inside the sense radius; any
        other such partner is dropped on both sides. Without a usable partner
        the creature courts (`Court`). The answer is whether a mating attempt
        is under way, which suppresses foraging. */
    method SeekMate(w: World, senseSq: real, input: AgentInput) returns (attempt: bool)
      requires kind == CreatureKind && this in w.creatures
      modifies this`matingPartner, this`targetPartner, this`matingCooldown, this`readyToMate
      modifies w.creatures`matingPartner, PartnerSet()`matingPartner, PartnerSet()`matingCooldown, PartnerSet()`readyToMate
      modifies w`creaturesToAdd, w`maxCreatureGeneration
      ensures var p := old(matingPartner);
              p != null && !p.markedDead && old(p.readyToMate) ==>
                (DistSq(pos, p.pos) < CreatureMatingRange * CreatureMatingRange ==>
                   attempt && matingPartner == null && p.matingPartner == null &&
                   matingCooldown == CreatureMatingCooldown && p.matingCooldown == MatingCooldown(p.kind) &&
                   !readyToMate && !p.readyToMate) &&
                (CreatureMatingRange * CreatureMatingRange <= DistSq(pos, p.pos) < senseSq ==>
                   attempt && matingPartner == p) &&
                (senseSq <= DistSq(pos, p.pos) && CreatureMatingRange * CreatureMatingRange <= DistSq(pos, p.pos) ==>
                   !attempt && matingPartner == null && p.matingPartner == null)
      ensures w.creaturesToAdd != old(w.creaturesToAdd) ==>
                var p := old(matingPartner);
                p != null && !p.markedDead && old(p.readyToMate) &&
                DistSq(pos, p.pos) < CreatureMatingRange * CreatureMatingRange && input.coin < 0.5
      ensures matingPartner != null && matingPartner != old(matingPartner) ==>
                matingPartner in w.creatures && matingPartner != this && matingPartner.matingPartner == this
      ensures !attempt ==> matingPartner == null
      ensures forall a :: a in w.creatures ==>
                a.matingPartner == null || a.matingPartner == old(a.matingPartner) || a.matingPartner in w.creatures
      ensures w.Grew() && (old(w.Appendable()) ==> w.Appendable())
    {
      attempt := false;
      var p := matingPartner;
      if p != null && !p.markedDead && p.readyToMate {
        var d := DistSq(pos, p.pos);
        if d < CreatureMatingRange * CreatureMatingRange {
          Mate(w, input);
          attempt := true;
        } else if d < senseSq {
          attempt := true;
        } else {
          p.matingPartner := null;
          matingPartner := null;
        }
      } else {
        attempt := Court(w, senseSq);
      }
    }

    /** Mating with the current partner. When the coin `Math.random() < 0.5`
        comes up, an offspring of the crossover of both genomes (which is the
        partner's genome) is queued, with no check against the population
        cap, and the creature generation maximum is raised to it. Either way
        both enter the cooldown, stop being ready and drop each other. */
    method Mate(w: World, input: AgentInput)
      requires kind == CreatureKind && matingPartner != null
      modifies this`matingPartner, this`matingCooldown, this`readyToMate
      modifies PartnerSet()`matingPartner, PartnerSet()`matingCooldown, PartnerSet()`readyToMate
      modifies w`creaturesToAdd, w`maxCreatureGeneration
      ensures var p := old(matingPartner);
              matingPartner == null && p.matingPartner == null &&
              matingCooldown == CreatureMatingCooldown && p.matingCooldown == MatingCooldown(p.kind) &&
              !readyToMate && !p.readyToMate
      ensures input.coin >= 0.5 ==>
                w.creaturesToAdd == old(w.creaturesToAdd) && w.maxCreatureGeneration == old(w.maxCreatureGeneration)
      ensures input.coin < 0.5 ==>
                |w.creaturesToAdd| == |old(w.creaturesToAdd)| + 1 &&
                var child := w.creaturesToAdd[|old(w.creaturesToAdd)|];
                child.genes == old(matingPartner).genes && child.generation == generation + 1 &&
                child.pos == Vec2(pos.x + JitterOffset(input.offspring.jitterX), pos.y + JitterOffset(input.offspring.jitterY)) &&
                w.maxCreatureGeneration == MaxGeneration(old(w.maxCreatureGeneration), generation + 1)
      ensures w.Grew() && (old(w.Appendable()) ==> w.Appendable())
    {
      var p := matingPartner;
      if input.coin < 0.5 {
        var childGenes := CrossoverGenes(genes, p.genes, input.speedPick, input.sensePick);
        var child := CreateOffspring(childGenes, input.offspring);
        w.QueueCreature(child);
      }
      matingCooldown := CreatureMatingCooldown;
      p.matingCooldown := MatingCooldown(p.kind);
      readyToMate := false;
      p.readyToMate := false;
      p.matingPartner := null;
      matingPartner := null;
    }

    /** Courting: the creature drops its partner (without telling it) and
        picks the closest other living creature inside its sense radius that
        is ready and unpartnered. The test that follows (the candidate is
        unpartnered or already targets this creature) always holds, so the
        pair is formed, mutually, exactly when such a candidate exists. */
    method Court(w: World, senseSq: real) returns (paired: bool)
      requires this in w.creatures
      modifies this`matingPartner, this`targetPartner, w.creatures`matingPartner
      ensures paired <==>
                exists a :: a in w.creatures && old(Considers(FreeMate, a)) && DistSq(pos, a.pos) < senseSq
      ensures paired <==> matingPartner != null
      ensures var m := matingPartner;
              paired ==>
                m in w.creatures && m != this && m.matingPartner == this && targetPartner == m &&
                old(Considers(FreeMate, m)) && DistSq(pos, m.pos) < senseSq &&
                forall a :: a in w.creatures && old(Considers(FreeMate, a)) ==> DistSq(pos, m.pos) <= DistSq(pos, a.pos)
      ensures !paired ==> targetPartner == null
      ensures forall a :: a in w.creatures && a != this ==>
                a.matingPartner == old(a.matingPartner) || a.matingPartner == this
    {
      matingPartner := null;
      var closest, _ := FindClosestAgent(w.creatures, senseSq, FreeMate);
      paired := false;
      if closest != null {
        targetPartner := closest;
        // The filter admits only unpartnered candidates, so the pairing test
        // (unpartnered, or already targeting this creature) passes.
        assert closest.matingPartner == null;
        matingPartner := closest;
        closest.matingPartner := this;
        paired := true;
      } else {
        targetPartner := null;
      }
    }

    /** Step 3 of a creature's update, taken when it neither flees nor
        attempts to mate. A target pellet still on the map is eaten on
        contact (the squared distance below the squared sum of radii), kept
        while inside the sense radius, and dropped otherwise; without a
        target the closest pellet inside the sense radius becomes the
        target. */
    method Forage(w: World, senseSq: real)
      modifies this`energy, this`targetFood, w`foodToRemove
      ensures var t := old(targetFood);
              t != null && t in w.food && DistSq(pos, t.pos) < (radius + t.radius) * (radius + t.radius) ==>
                targetFood == null &&
                (!isDead ==> energy == old(energy) + FoodEnergy &&
                             w.foodToRemove == old(w.foodToRemove) + (if t in old(w.foodToRemove) then [] else [t]))
      ensures var t := old(targetFood);
              !(t != null && t in w.food && DistSq(pos, t.pos) < (radius + t.radius) * (radius + t.radius)) ==>
                energy == old(energy) && w.foodToRemove == old(w.foodToRemove)
      ensures targetFood != null ==> targetFood in w.food && DistSq(pos, targetFood.pos) < senseSq
      ensures old(targetFood) == null || old(targetFood) !in w.food ==>
                (targetFood == null <==> forall f :: f in w.food ==> DistSq(pos, f.pos) >= senseSq) &&
                (targetFood != null ==> ClosestFoodOf(w.food, senseSq, targetFood))
    {
      var t := targetFood;
      if t != null && t in w.food {
        var d := DistSq(pos, t.pos);
        if d < (radius + t.radius) * (radius + t.radius) {
          Eat(w, t);
          targetFood := null;
        } else if d < senseSq {
        } else {
          targetFood := null;
        }
      } else {
        targetFood := null;
        var closest, _ := FindClosestFood(w.food, senseSq);
        if closest != null {
          targetFood := closest;
        }
      }
    }

    /** A creature's speed for the tick: its gene, raised while fleeing. */
    function SpeedFor(action: CreatureAction): real
      reads this
    {
      if action == Fled then genes.speed * EvadeSpeedFactor else genes.speed
    }

    /** `Creature.update`: the lifecycle step, the obstacle check, then
        fleeing, mating when ready, or foraging; then wall avoidance, and
        finally the move along the heading the steering rules produced. */
    method UpdateCreature(w: World, dt: real, input: AgentInput) returns (action: CreatureAction)
      requires kind == CreatureKind && this in w.creatures
      modifies this`age, this`energy, this`matingCooldown, this`readyToMate, this`isDead, this`pos
      modifies this`targetFood, this`targetPartner, this`matingPartner, this`targetCreature
      modifies w.creatures`matingPartner, PartnerSet()`matingPartner, PartnerSet()`matingCooldown, PartnerSet()`readyToMate
      modifies w`foodToRemove, w`creaturesToAdd, w`maxCreatureGeneration
      ensures var v := Step(old(Vitals()), Rates(kind), dt);
              age == v.age && (action == Expired <==> v.dead)
      ensures isDead <==> action == Expired || action == Crashed
      ensures action == Crashed ==>
                pos == old(pos) && exists o :: o in w.obstacles && o.CollidesWithCircle(pos, radius)
      ensures action != Foraged ==> w.foodToRemove == old(w.foodToRemove)
      ensures action != Courted ==> w.creaturesToAdd == old(w.creaturesToAdd)
      ensures forall a :: a in w.creatures ==>
                a.matingPartner == null || a.matingPartner == old(a.matingPartner) || a.matingPartner in w.creatures
      ensures w.Grew() && (old(w.Appendable()) ==> w.Appendable())
    {
      var gone := UpdateBasicState(dt);
      if gone {
        return Expired;
      }
      var hit := CheckObstacleCollision(w.obstacles);
      if hit {
        return Crashed;
      }
      action := Live(w, dt, input);
    }

    /** The part of a creature's update after it survived the lifecycle step
        and the obstacle check. */
    method Live(w: World, dt: real, input: AgentInput) returns (action: CreatureAction)
      requires kind == CreatureKind && this in w.creatures && !isDead
      modifies this`energy, this`matingCooldown, this`readyToMate, this`pos
      modifies this`targetFood, this`targetPartner, this`matingPartner, this`targetCreature
      modifies w.creatures`matingPartner, PartnerSet()`matingPartner, PartnerSet()`matingCooldown, PartnerSet()`readyToMate
      modifies w`foodToRemove, w`creaturesToAdd, w`maxCreatureGeneration
      ensures action == Fled || action == Courted || action == Foraged
      ensures MagSq(input.heading) != 0.0 ==> InBox(pos, radius, Width, Height)
      ensures MagSq(input.heading) == 0.0 ==> pos == old(pos)
      ensures action == Fled && MagSq(input.heading) != 0.0 ==>
                energy == old(energy) - MoveCost(kind) * (genes.speed * EvadeSpeedFactor) * EvadeCostFactor * dt
      ensures NearWall(old(pos), radius) ==>
                targetFood == null && targetPartner == null && matingPartner == null && targetCreature == null
      ensures action != Foraged ==> w.foodToRemove == old(w.foodToRemove)
      ensures action != Courted ==> w.creaturesToAdd == old(w.creaturesToAdd)
      ensures forall a :: a in w.creatures ==>
                a.matingPartner == null || a.matingPartner == old(a.matingPartner) || a.matingPartner in w.creatures
      ensures w.Grew() && (old(w.Appendable()) ==> w.Appendable())
    {
      action := Steer(w, input);
      AvoidWalls();
      ApplyMovement(dt, input.heading, SpeedFor(action), if action == Fled then EvadeCostFactor else 1.0);
    }

    /** The choice a living creature makes inside its sense radius: flee,
        else try to mate when ready, else forage. */
    method Steer(w: World, input: AgentInput) returns (action: CreatureAction)
      requires kind == CreatureKind && this in w.creatures
      modifies this`energy, this`matingCooldown, this`readyToMate
      modifies this`targetFood, this`targetPartner, this`matingPartner
      modifies w.creatures`matingPartner, PartnerSet()`matingPartner, PartnerSet()`matingCooldown, PartnerSet()`readyToMate
      modifies w`foodToRemove, w`creaturesToAdd, w`maxCreatureGeneration
      ensures action == Fled || action == Courted || action == Foraged
      ensures action == Fled ==> targetFood == null && targetPartner == null && matingPartner == null
      ensures action != Foraged ==> energy == old(energy) && w.foodToRemove == old(w.foodToRemove)
      ensures action != Courted ==> w.creaturesToAdd == old(w.creaturesToAdd)
      ensures action == Courted ==> old(readyToMate)
      ensures forall a :: a in w.creatures ==>
                a.matingPartner == null || a.matingPartner == old(a.matingPartner) || a.matingPartner in w.creatures
      ensures w.Grew() && (old(w.Appendable()) ==> w.Appendable())
    {
      var senseSq := genes.sense * genes.sense;
      var evading := Evade(w, senseSq);
      if evading {
        return Fled;
      }
      var attempt := false;
      if readyToMate {
        attempt := SeekMate(w, senseSq, input);
      }
      if attempt {
        action := Courted;
      } else {
        Forage(w, senseSq);
        action := Foraged;
      }
    }

    /** Step 1 of a predator's update. The current target is checked first
        (`Chase`); after a bite, or when the target was lost, the closest
        living creature inside the sense radius that no hunt has marked
        becomes the target. The answer is whether the predator has prey to
        chase. */
    method Stalk(w: World, senseSq: real) returns (preyFound: bool)
      requires kind == PredatorKind && !isDead
      modifies this`targetCreature, this`energy, w.creatures`markedDead, w`creaturesToRemove
      ensures preyFound <==> targetCreature != null
      ensures targetCreature != null ==>
                targetCreature in w.creatures && !targetCreature.markedDead && DistSq(pos, targetCreature.pos) < senseSq
      ensures targetCreature == null ==>
                forall c :: c in w.creatures && Considers(Unmarked, c) ==> DistSq(pos, c.pos) >= senseSq
      ensures var t := old(targetCreature);
              old(Bites(w, t, senseSq)) ==>
                t.markedDead && energy == old(energy) + PredatorHuntEnergyGain &&
                w.creaturesToRemove == old(w.creaturesToRemove) + (if t in old(w.creaturesToRemove) then [] else [t]) &&
                targetCreature != t
      ensures !old(Bites(w, targetCreature, senseSq)) ==>
                energy == old(energy) && w.creaturesToRemove == old(w.creaturesToRemove)
      ensures forall c :: c in w.creatures && c != old(targetCreature) ==> c.markedDead == old(c.markedDead)
      ensures forall c :: c in w.creatures && c.markedDead && !old(c.markedDead) ==> c in w.creaturesToRemove
      ensures w.Grew()
      ensures targetCreature != null && targetCreature != old(targetCreature) ==>
                ClosestOf(Unmarked, w.creatures, senseSq, targetCreature)
    {
      var valid := Chase(w, senseSq);
      preyFound := valid;
      if valid {
        assert targetCreature == old(targetCreature);
      } else {
        preyFound := Retarget(w, senseSq);
      }
    }

    /** The search after the current target was dropped: the closest listed
        creature, alive and unmarked, inside the sense radius, if any,
        becomes the target. */
    method Retarget(w: World, senseSq: real) returns (found: bool)
      requires targetCreature == null
      modifies this`targetCreature
      ensures found <==> targetCreature != null
      ensures targetCreature != null ==>
                targetCreature in w.creatures && !targetCreature.markedDead && DistSq(pos, targetCreature.pos) < senseSq &&
                ClosestOf(Unmarked, w.creatures, senseSq, targetCreature)
      ensures targetCreature == null ==>
                forall c :: c in w.creatures && Considers(Unmarked, c) ==> DistSq(pos, c.pos) >= senseSq
    {
      found := false;
      var closest := NearestPrey(w, senseSq);
      if closest != null {
        targetCreature := closest;
        found := true;
      }
    }

    /** The closest listed creature, alive and unmarked, strictly inside the
        sense radius, if any. */
    method NearestPrey(w: World, senseSq: real) returns (prey: Agent?)
      ensures prey != null ==>
                prey in w.creatures && !prey.markedDead && DistSq(pos, prey.pos) < senseSq &&
                ClosestOf(Unmarked, w.creatures, senseSq, prey)
      ensures prey == null ==>
                forall c :: c in w.creatures && Considers(Unmarked, c) ==> DistSq(pos, c.pos) >= senseSq
    {
      var d;
      prey, d := FindClosestAgent(w.creatures, senseSq, Unmarked);
    }

    /** The current target is kept while it is listed, not marked by a hunt
        and inside the sense radius, and hunted when the squared distance is
        below the squared sum of radii, after which it is dropped; a target
        that is not kept is dropped. The answer is whether the target is
        kept. */
    method Chase(w: World, senseSq: real) returns (kept: bool)
      requires kind == PredatorKind && !isDead
      modifies this`targetCreature, this`energy, w.creatures`markedDead, w`creaturesToRemove
      ensures kept <==> targetCreature != null
      ensures kept ==>
                targetCreature == old(targetCreature) && targetCreature in w.creatures &&
                !targetCreature.markedDead && DistSq(pos, targetCreature.pos) < senseSq
      ensures var t := old(targetCreature);
              old(Bites(w, t, senseSq)) ==>
                t.markedDead && energy == old(energy) + PredatorHuntEnergyGain &&
                w.creaturesToRemove == old(w.creaturesToRemove) + (if t in old(w.creaturesToRemove) then [] else [t])
      ensures !old(Bites(w, targetCreature, senseSq)) ==>
                energy == old(energy) && w.creaturesToRemove == old(w.creaturesToRemove)
      ensures forall c :: c in w.creatures && c != old(targetCreature) ==> c.markedDead == old(c.markedDead)
      ensures forall c :: c in w.creatures && c.markedDead && !old(c.markedDead) ==> c in w.creaturesToRemove
      ensures w.Grew()
    {
      var t := targetCreature;
      kept := false;
      if t != null && t in w.creatures && !t.markedDead {
        var d := DistSq(pos, t.pos);
        if d < senseSq {
          kept := true;
          if d < (radius + t.radius) * (radius + t.radius) {
            Hunt(w, t);
            targetCreature := null;
            kept := false;
          }
        } else {
          targetCreature := null;
        }
      } else {
        targetCreature := null;
      }
    }

    /** Whether this predator hunts `t` now: `t` is listed, not marked,
        inside the sense radius and overlapping (squared distance below the
        squared sum of radii). Its `isDead` plays no part. */
    ghost predicate Bites(w: World, t: Agent?, senseSq: real)
      reads this`pos, w`creatures, t
    {
      t != null && t in w.creatures && !t.markedDead &&
      DistSq(pos, t.pos) < senseSq && DistSq(pos, t.pos) < (radius + t.radius) * (radius + t.radius)
    }

    /** `Predator.update`: the lifecycle step, the obstacle check, stalking,
        wall avoidance, the move, then asexual reproduction. */
    method UpdatePredator(w: World, dt: real, input: AgentInput)
      requires kind == PredatorKind
      modifies this`age, this`energy, this`matingCooldown, this`readyToMate, this`isDead, this`pos
      modifies this`targetFood, this`targetPartner, this`matingPartner, this`targetCreature
      modifies w.creatures`markedDead, w`creaturesToRemove, w`predatorsToAdd, w`maxPredatorGeneration
      ensures var v := Step(old(Vitals()), Rates(kind), dt);
              age == v.age && (v.dead ==> isDead && w.creaturesToRemove == old(w.creaturesToRemove) &&
                                           w.predatorsToAdd == old(w.predatorsToAdd))
      ensures forall c :: c in w.creatures && c != old(targetCreature) ==> c.markedDead == old(c.markedDead)
      ensures forall c :: c in w.creatures && c.markedDead && !old(c.markedDead) ==> c in w.creaturesToRemove
      ensures var v := Step(old(Vitals()), Rates(kind), dt);
              !isDead && v.ready && |w.predators| < MaxPredators ==>
                matingCooldown == PredatorMatingCooldown && !readyToMate &&
                |w.predatorsToAdd| == |old(w.predatorsToAdd)| + 1
      ensures var v := Step(old(Vitals()), Rates(kind), dt);
              !isDead && !(v.ready && |w.predators| < MaxPredators) ==>
                matingCooldown == v.cooldown && readyToMate == v.ready && w.predatorsToAdd == old(w.predatorsToAdd)
      ensures w.Grew() && (old(w.Appendable()) ==> w.Appendable())
    {
      var gone := UpdateBasicState(dt);
      if gone {
        return;
      }
      var hit := CheckObstacleCollision(w.obstacles);
      if hit {
        return;
      }
      Prowl(w, dt, input);
    }

    /** The part of a predator's update after it survived the lifecycle step
        and the obstacle check. */
    method Prowl(w: World, dt: real, input: AgentInput)
      requires kind == PredatorKind && !isDead
      modifies this`energy, this`matingCooldown, this`readyToMate, this`pos
      modifies this`targetFood, this`targetPartner, this`matingPartner, this`targetCreature
      modifies w.creatures`markedDead, w`creaturesToRemove, w`predatorsToAdd, w`maxPredatorGeneration
      ensures forall c :: c in w.creatures && c != old(targetCreature) ==> c.markedDead == old(c.markedDead)
      ensures forall c :: c in w.creatures && c.markedDead && !old(c.markedDead) ==> c in w.creaturesToRemove
      ensures old(readyToMate) && |w.predators| < MaxPredators ==>
                matingCooldown == PredatorMatingCooldown && !readyToMate &&
                |w.predatorsToAdd| == |old(w.predatorsToAdd)| + 1
      ensures !(old(readyToMate) && |w.predators| < MaxPredators) ==>
                matingCooldown == old(matingCooldown) && readyToMate == old(readyToMate) &&
                w.predatorsToAdd == old(w.predatorsToAdd)
      ensures NearWall(old(pos), radius) ==> targetCreature == null
      ensures w.Grew() && (old(w.Appendable()) ==> w.Appendable())
    {
      var senseSq := genes.sense * genes.sense;
      StalkStep(w, senseSq);
      AvoidWalls();
      ApplyMovement(dt, input.heading, genes.speed, 1.0);
      Reproduce(w, input.offspring);
    }

    /** The stalking step as the rest of the update sees it: only a creature
        that was the target can have been marked, and a marked creature is
        listed. */
    method StalkStep(w: World, senseSq: real)
      requires kind == PredatorKind && !isDead
      modifies this`targetCreature, this`energy, w.creatures`markedDead, w`creaturesToRemove
      ensures forall c :: c in w.creatures && c != old(targetCreature) ==> c.markedDead == old(c.markedDead)
      ensures forall c :: c in w.creatures && c.markedDead && !old(c.markedDead) ==> c in w.creaturesToRemove
      ensures w.Grew()
    {
      var _ := Stalk(w, senseSq);
    }

    /** Asexual reproduction: a ready predator, while the predator list (not
        counting the births already queued) is below its cap, pays the
        reproduction cost, queues an offspring with its own genes, raises the
        predator generation maximum and enters the cooldown. */
    method Reproduce(w: World, d: OffspringDraws)
      requires kind == PredatorKind
      modifies this`energy, this`matingCooldown, this`readyToMate, w`predatorsToAdd, w`maxPredatorGeneration
      ensures old(readyToMate) && |w.predators| < MaxPredators ==>
                energy == old(energy) - PredatorReproductionCost &&
                matingCooldown == PredatorMatingCooldown && !readyToMate &&
                |w.predatorsToAdd| == |old(w.predatorsToAdd)| + 1 &&
                var child := w.predatorsToAdd[|old(w.predatorsToAdd)|];
                child.genes == genes && child.generation == generation + 1 &&
                w.maxPredatorGeneration == MaxGeneration(old(w.maxPredatorGeneration), generation + 1)
      ensures !(old(readyToMate) && |w.predators| < MaxPredators) ==>
                energy == old(energy) && matingCooldown == old(matingCooldown) && readyToMate == old(readyToMate) &&
                w.predatorsToAdd == old(w.predatorsToAdd) && w.maxPredatorGeneration == old(w.maxPredatorGeneration)
      ensures w.Grew() && (old(w.Appendable()) ==> w.Appendable())
    {
      if readyToMate && |w.predators| < MaxPredators {
        energy := energy - PredatorReproductionCost;
        var child := CreateOffspring(genes, d);
        w.QueuePredator(child);
        matingCooldown := MatingCooldown(kind);
        readyToMate := false;
      }
    }
  }

  /** The agents' positions, in order. */
  function Positions(agents: seq<Agent>): (ps: seq<Vec2>)
    reads agents
    ensures |ps| == |agents| && forall i :: 0 <= i < |agents| ==> ps[i] == agents[i].pos
  {
    seq(|agents|, i requires 0 <= i < |agents| reads agents => agents[i].pos)
  }

  /** Where a step of `distance` along `heading` (scaled by the movement
      constant) takes an agent of the given radius, clamped to the screen. */
  function Moved(p: Vec2, heading: Vec2, distance: real, radius: real): Vec2 {
    ClampToBox(Add(p, Scale(heading, distance * MoveScale)), radius, Width, Height)
  }

  /** Closer than the radius plus one pixel to some wall. */
  ghost predicate NearWall(p: Vec2, radius: real) {
    var m := radius + 1.0;
    p.x < m || p.x > Width - m || p.y < m || p.y > Height - m
  }

  /** `calculateWallAvoidance` before its normalisation and scaling (which
      keep a non-zero vector non-zero): a unit push along each axis away from
      a wall closer than the margin. */
  function WallPush(p: Vec2, radius: real): (v: Vec2)
    ensures MagSq(v) > 0.0 <==> NearWall(p, radius)
    ensures -1.0 <= v.x <= 1.0 && -1.0 <= v.y <= 1.0
  {
    var m := radius + 1.0;
    Vec2(if p.x < m then 1.0 else if p.x > Width - m then -1.0 else 0.0,
         if p.y < m then 1.0 else if p.y > Height - m then -1.0 else 0.0)
  }

  /** `Math.max` on two generation counts. */
  function MaxGeneration(a: nat, b: nat): (m: nat)
    ensures m >= a && m >= b && (m == a || m == b)
  {
    if a >= b then a else b
  }

  class World {
    var creatures: seq<Agent>
    var predators: seq<Agent>
    var food: seq<Food>
    var creaturesToRemove: seq<Agent>
    var predatorsToRemove: seq<Agent>
    var foodToRemove: seq<Food>
    var creaturesToAdd: seq<Agent>
    var predatorsToAdd: seq<Agent>
    var maxCreatureGeneration: nat
    var maxPredatorGeneration: nat
    var selected: Agent?
    var paused: bool
    var simulationTime: real
    const obstacles: seq<WebVectors.Obstacle>

    /** An empty world with the given obstacles, running, at time zero. */
    constructor (obstacles: seq<WebVectors.Obstacle>)
      ensures this.obstacles == obstacles
      ensures creatures == [] && predators == [] && food == []
      ensures creaturesToRemove == [] && predatorsToRemove == [] && foodToRemove == []
      ensures creaturesToAdd == [] && predatorsToAdd == []
      ensures selected == null && !paused && simulationTime == 0.0
      ensures Valid()
    {
      this.obstacles := obstacles;
      creatures := [];
      predators := [];
      food := [];
      creaturesToRemove := [];
      predatorsToRemove := [];
      foodToRemove := [];
      creaturesToAdd := [];
      predatorsToAdd := [];
      maxCreatureGeneration := 0;
      maxPredatorGeneration := 0;
      selected := null;
      paused := false;
      simulationTime := 0.0;
    }

    /** Between ticks: the lists are well formed and no listed creature
        carries a hunt's mark. */
    ghost predicate Valid()
      reads this, creatures
    {
      WellFormed() && forall c :: c in creatures ==> !c.markedDead
    }

    /** The lists hold agents of the right kind and no agent or pellet
        twice. */
    ghost predicate WellFormed()
      reads this
    {
      (forall c :: c in creatures ==> c.kind == CreatureKind) &&
      (forall p :: p in predators ==> p.kind == PredatorKind) &&
      Distinct(creatures) && Distinct(predators) && Distinct(food)
    }

    /** Queued births are of the right kind, queued once each and not in
        their population. */
    ghost predicate Appendable()
      reads this
    {
      (forall a :: a in creaturesToAdd ==> a.kind == CreatureKind) &&
      (forall a :: a in predatorsToAdd ==> a.kind == PredatorKind) &&
      Distinct(creaturesToAdd) && Distinct(predatorsToAdd) &&
      (forall a :: a in creaturesToAdd ==> a !in creatures) &&
      (forall a :: a in predatorsToAdd ==> a !in predators)
    }

    /** Queued births are untouched since they were built. */
    ghost predicate BirthsFresh()
      reads this, creaturesToAdd, predatorsToAdd
    {
      (forall a :: a in creaturesToAdd ==> a.Fresh()) && (forall a :: a in predatorsToAdd ==> a.Fresh())
    }

    /** Between two states of one tick the removal list of creatures and the
        birth queues only grow, and the births are newly built agents still in
        their initial state. */
    twostate predicate Grew()
      reads this, creaturesToAdd, predatorsToAdd
    {
      old(creaturesToRemove) <= creaturesToRemove &&
      old(creaturesToAdd) <= creaturesToAdd &&
      (forall i :: |old(creaturesToAdd)| <= i < |creaturesToAdd| ==>
         fresh(creaturesToAdd[i]) && creaturesToAdd[i].Fresh()) &&
      old(predatorsToAdd) <= predatorsToAdd &&
      (forall i :: |old(predatorsToAdd)| <= i < |predatorsToAdd| ==>
         fresh(predatorsToAdd[i]) && predatorsToAdd[i].Fresh())
    }

    /** A creature's mating: the offspring is queued and the creature
        generation maximum raised to its generation. */
    method QueueCreature(child: Agent)
      modifies this`creaturesToAdd, this`maxCreatureGeneration
      ensures creaturesToAdd == old(creaturesToAdd) + [child]
      ensures maxCreatureGeneration == MaxGeneration(old(maxCreatureGeneration), child.generation)
    {
      creaturesToAdd := creaturesToAdd + [child];
      maxCreatureGeneration := MaxGeneration(maxCreatureGeneration, child.generation);
    }

    /** A predator's reproduction: the offspring is queued and the predator
        generation maximum raised to its generation. */
    method QueuePredator(child: Agent)
      modifies this`predatorsToAdd, this`maxPredatorGeneration
      ensures predatorsToAdd == old(predatorsToAdd) + [child]
      ensures maxPredatorGeneration == MaxGeneration(old(maxPredatorGeneration), child.generation)
    {
      predatorsToAdd := predatorsToAdd + [child];
      maxPredatorGeneration := MaxGeneration(maxPredatorGeneration, child.generation);
    }

    /** The creatures' current mating partners, which a tick may update even
        when they are no longer listed. */
    ghost function Partners(): set<Agent?>
      reads this, creatures
    {
      set c | c in creatures :: c.matingPartner
    }

    /** The creature loop of a tick: each creature, in list order, takes its
        update. */
    method UpdateCreatures(dt: real, inputs: seq<AgentInput>)
      requires Valid() && creaturesToAdd == [] && predatorsToAdd == []
      requires |inputs| == |creatures|
      modifies creatures, Partners()
      modifies this`foodToRemove, this`creaturesToAdd, this`maxCreatureGeneration
      ensures Valid() && Grew() && Appendable() && BirthsFresh() && predatorsToAdd == []
    {
      ghost var partners := Partners();
      for i := 0 to |creatures|
        invariant Valid() && Grew() && Appendable() && BirthsFresh() && predatorsToAdd == []
        invariant forall a :: a in creaturesToAdd ==> a !in partners
        invariant forall c :: c in creatures ==>
                    c.matingPartner == null || c.matingPartner in creatures || c.matingPartner in partners
      {
        var c := creatures[i];
        StepCreature(c, dt, inputs[i]);
      }
    }

    /** One turn of the creature loop: the creature's update, which keeps the
        lists valid, queues only new births and leaves every other mating
        partner unchanged or listed. */
    method StepCreature(c: Agent, dt: real, input: AgentInput)
      requires Valid() && Appendable() && BirthsFresh() && c in creatures && predatorsToAdd == []
      requires forall a :: a in creaturesToAdd ==> a != c.matingPartner
      modifies c, creatures`matingPartner, c.PartnerSet()`matingPartner, c.PartnerSet()`matingCooldown
      modifies c.PartnerSet()`readyToMate, this`foodToRemove, this`creaturesToAdd, this`maxCreatureGeneration
      ensures Valid() && Grew() && Appendable() && BirthsFresh() && predatorsToAdd == old(predatorsToAdd)
      ensures forall a :: a in creaturesToAdd ==> a in old(creaturesToAdd) || fresh(a)
      ensures forall a :: a in creatures ==>
                a.matingPartner == null || a.matingPartner == old(a.matingPartner) || a.matingPartner in creatures
    {
      ghost var births := creaturesToAdd;
      assert forall a :: a in births ==> a !in creatures && a !in c.PartnerSet();
      var _ := c.UpdateCreature(this, dt, input);
      assert forall a :: a in births ==> a.Fresh();
    }

    /** The predator loop of a tick: each predator, in list order, takes its
        update; every creature a hunt marks is listed for removal by the
        hunt. */
    method UpdatePredators(dt: real, inputs: seq<AgentInput>)
      requires Valid() && Appendable() && BirthsFresh()
      requires |inputs| == |predators|
      modifies predators, creatures
      modifies this`creaturesToRemove, this`predatorsToAdd, this`maxPredatorGeneration
      ensures forall c :: c in creatures && c.markedDead ==> c in creaturesToRemove
      ensures Grew() && Appendable() && BirthsFresh()
    {
      for i := 0 to |predators|
        invariant Grew() && Appendable() && BirthsFresh()
        invariant forall c :: c in creatures && c.markedDead ==> c in creaturesToRemove
      {
        var p := predators[i];
        p.UpdatePredator(this, dt, inputs[i]);
      }
    }

    /** The `forEach` passes of the end of a tick: every dead creature, then
        every dead predator, not yet listed for removal is listed. */
    method ListDeadAgents()
      modifies this`creaturesToRemove, this`predatorsToRemove
      ensures creaturesToRemove == Listed(creatures, old(creaturesToRemove))
      ensures predatorsToRemove == Listed(predators, old(predatorsToRemove))
    {
      creaturesToRemove := ListDead(creatures, creaturesToRemove);
      predatorsToRemove := ListDead(predators, predatorsToRemove);
    }

    /** The creatures once the tick's removals, births and cap are applied. */
    ghost function NextCreatures(): seq<Agent>
      reads this, creatures, creaturesToAdd
    {
      Settled(creatures, creaturesToRemove, creaturesToAdd, MaxCreatures)
    }

    /** The predators once the tick's removals, births and cap are applied. */
    ghost function NextPredators(): seq<Agent>
      reads this, predators, predatorsToAdd
    {
      Settled(predators, predatorsToRemove, predatorsToAdd, MaxPredators)
    }

    /** The selection survives the end of a tick unless a cap drops its
        agent; removal for death does not clear it. */
    ghost function NextSelected(): Agent?
      reads this, creatures, creaturesToAdd, predators, predatorsToAdd
    {
      if selected in Unsettled(creatures, creaturesToRemove, creaturesToAdd, MaxCreatures) ||
         selected in Unsettled(predators, predatorsToRemove, predatorsToAdd, MaxPredators)
      then null else selected
    }

    /** The rest of the end of a tick: the listed pellets are removed, each
        population loses its listed agents and then its dead ones, the queued
        births are appended, and each population over its cap is culled,
        clearing the selection when the cull drops its agent. */
    method Commit()
      requires WellFormed() && Appendable()
      modifies this`food, this`creatures, this`predators, this`selected
      ensures food == Without(old(food), foodToRemove)
      ensures creatures == old(NextCreatures()) && predators == old(NextPredators())
      ensures selected == old(NextSelected())
      ensures WellFormed()
    {
      var f, c, p, chosen := Settle();
      Store(f, c, p, chosen);
    }

    /** Writes the settled lists and selection back. */
    method Store(f: seq<Food>, c: seq<Agent>, p: seq<Agent>, chosen: Agent?)
      modifies this`food, this`creatures, this`predators, this`selected
      ensures food == f && creatures == c && predators == p && selected == chosen
    {
      food, creatures, predators, selected := f, c, p, chosen;
    }

    /** What the end of a tick computes once the dead are listed, before
        anything is written back: the new food and population lists, each
        free of duplicates and holding only its kind, and the new
        selection. */
    method Settle() returns (f: seq<Food>, c: seq<Agent>, p: seq<Agent>, chosen: Agent?)
      requires WellFormed() && Appendable()
      ensures f == Without(food, foodToRemove) && Distinct(f)
      ensures c == old(NextCreatures()) && p == old(NextPredators()) && chosen == old(NextSelected())
      ensures Distinct(c) && Distinct(p)
      ensures (forall a :: a in c ==> a.kind == CreatureKind) && (forall a :: a in p ==> a.kind == PredatorKind)
    {
      var droppedC, droppedP;
      c, p, droppedC, droppedP := SettleAgents();
      f := Without(food, foodToRemove);
      WithoutDistinct(food, foodToRemove);
      chosen := selected;
      if chosen in droppedC {
        chosen := null;
      }
      if chosen in droppedP {
        chosen := null;
      }
    }

    /** Both populations at the end of a tick, with the agents each cap
        drops. */
    method SettleAgents() returns (c: seq<Agent>, p: seq<Agent>, droppedC: seq<Agent>, droppedP: seq<Agent>)
      requires WellFormed() && Appendable()
      ensures c == old(NextCreatures()) && Distinct(c)
      ensures p == old(NextPredators()) && Distinct(p)
      ensures droppedC == old(Unsettled(creatures, creaturesToRemove, creaturesToAdd, MaxCreatures))
      ensures droppedP == old(Unsettled(predators, predatorsToRemove, predatorsToAdd, MaxPredators))
      ensures (forall a :: a in c ==> a.kind == CreatureKind) && (forall a :: a in p ==> a.kind == PredatorKind)
    {
      c, droppedC := SettleCreatures();
      p, droppedP := SettlePredators();
    }

    /** The creature population at the end of a tick, with what its cap
        drops. */
    method SettleCreatures() returns (c: seq<Agent>, droppedC: seq<Agent>)
      requires WellFormed() && Appendable()
      ensures c == old(NextCreatures()) && Distinct(c)
      ensures droppedC == old(Unsettled(creatures, creaturesToRemove, creaturesToAdd, MaxCreatures))
      ensures forall a :: a in c ==> a.kind == CreatureKind
    {
      c, droppedC := SettlePopulation(creatures, creaturesToRemove, creaturesToAdd, MaxCreatures, CreatureKind);
    }

    /** The predator population at the end of a tick, with what its cap
        drops. */
    method SettlePredators() returns (p: seq<Agent>, droppedP: seq<Agent>)
      requires WellFormed() && Appendable()
      ensures p == old(NextPredators()) && Distinct(p)
      ensures droppedP == old(Unsettled(predators, predatorsToRemove, predatorsToAdd, MaxPredators))
      ensures forall a :: a in p ==> a.kind == PredatorKind
    {
      p, droppedP := SettlePopulation(predators, predatorsToRemove, predatorsToAdd, MaxPredators, PredatorKind);
    }

    /** One population at the end of a tick: its survivors and births,
        culled to the cap, and what the cull drops. */
    static method SettlePopulation(pop: seq<Agent>, removed: seq<Agent>, added: seq<Agent>, cap: nat, kind: Kind)
      returns (kept: seq<Agent>, dropped: seq<Agent>)
      requires Distinct(pop) && Distinct(added) && forall a :: a in added ==> a !in pop
      requires forall a :: a in pop || a in added ==> a.kind == kind
      ensures kept == old(Settled(pop, removed, added, cap)) && dropped == old(Unsettled(pop, removed, added, cap))
      ensures Distinct(kept)
      ensures forall a :: a in kept ==> a in pop || a in added
      ensures forall a :: a in kept ==> a.kind == kind
    {
      var survivors := Survivors(pop, removed);
      SurvivorsDistinct(pop, removed);
      DistinctConcat(survivors, added);
      var joined := survivors + added;
      CappedDistinct(joined, cap);
      CappedMembers(joined, cap);
      assert Settled(pop, removed, added, cap) == Capped(joined, cap);
      assert Unsettled(pop, removed, added, cap) == CappedOut(joined, cap);
      kept, dropped := CullPopulation(joined, cap);
    }

    /** The end of a tick: the dead are listed, then removals, births and
        caps are applied, and food may regrow. */
    method Conclude(foodSpots: seq<Vec2>)
      requires WellFormed() && Appendable() && BirthsFresh() && |foodSpots| >= 5
      requires forall a :: a in creatures && a.markedDead ==> a in creaturesToRemove
      modifies this`food, this`creatures, this`predators, this`selected, this`creaturesToRemove, this`predatorsToRemove
      ensures Valid() && |creatures| <= MaxCreatures && |predators| <= MaxPredators
      ensures forall a :: a in creatures ==> !a.isDead && (a in old(creatures) || a in creaturesToAdd)
      ensures forall a :: a in predators ==> !a.isDead && (a in old(predators) || a in predatorsToAdd)
    {
      ghost var removed := creaturesToRemove;
      ListDeadAgents();
      forall a | a in creatures && a !in creaturesToRemove
        ensures !a.markedDead
      {
        ListedMembers(creatures, removed, a);
      }
      CommitMembers();
      ReplenishFood(foodSpots);
    }

    /** `Commit`, with what it implies for the members of the new lists:
        each is a living, unlisted agent of the old list or a birth, and no
        list exceeds its cap. */
    method CommitMembers()
      requires WellFormed() && Appendable()
      modifies this`food, this`creatures, this`predators, this`selected
      ensures WellFormed() && |creatures| <= MaxCreatures && |predators| <= MaxPredators
      ensures forall a :: a in creatures ==>
                (a in old(creatures) && a !in creaturesToRemove && !a.isDead) || a in creaturesToAdd
      ensures forall a :: a in predators ==>
                (a in old(predators) && a !in predatorsToRemove && !a.isDead) || a in predatorsToAdd
    {
      SettledMembers(creatures, creaturesToRemove, creaturesToAdd, MaxCreatures);
      SettledMembers(predators, predatorsToRemove, predatorsToAdd, MaxPredators);
      Commit();
    }

    /** The start of a tick: every deferred buffer is emptied. */
    method ClearBuffers()
      modifies this`creaturesToRemove, this`predatorsToRemove, this`foodToRemove
      modifies this`creaturesToAdd, this`predatorsToAdd
      ensures creaturesToRemove == [] && predatorsToRemove == [] && foodToRemove == []
      ensures creaturesToAdd == [] && predatorsToAdd == []
    {
      creaturesToRemove, predatorsToRemove, foodToRemove := [], [], [];
      creaturesToAdd, predatorsToAdd := [], [];
    }

    /** Food regrowth: when fewer than 70% of the starting pellets remain,
        five placements are tried, each adding a pellet while the list is
        below 120% of the starting count, so exactly five are added. */
    method ReplenishFood(spots: seq<Vec2>)
      requires |spots| >= 5
      modifies this`food
      ensures (|old(food)| as real) < (FoodCount as real) * 0.7 ==>
                |food| == |old(food)| + 5 && old(food) <= food &&
                forall i :: |old(food)| <= i < |food| ==> fresh(food[i]) && food[i].pos == spots[i - |old(food)|]
      ensures !((|old(food)| as real) < (FoodCount as real) * 0.7) ==> food == old(food)
      ensures Distinct(old(food)) ==> Distinct(food)
    {
      if (|food| as real) < (FoodCount as real) * 0.7 {
        for k := 0 to 5
          invariant |food| == |old(food)| + k && old(food) <= food
          invariant forall i :: |old(food)| <= i < |food| ==> fresh(food[i]) && food[i].pos == spots[i - |old(food)|]
          invariant Distinct(old(food)) ==> Distinct(food)
        {
          if (|food| as real) < (FoodCount as real) * 1.2 {
            var f := new Food(spots[k]);
            food := food + [f];
          }
        }
      }
    }

    /** The update half of a tick: every creature, then every predator, is
        updated; every creature a hunt marked is listed for removal and the
        queued births are new agents in their initial state. */
    method UpdateAgents(dt: real, creatureInputs: seq<AgentInput>, predatorInputs: seq<AgentInput>)
      requires Valid()
      requires creaturesToRemove == [] && predatorsToRemove == [] && foodToRemove == []
      requires creaturesToAdd == [] && predatorsToAdd == []
      requires |creatureInputs| == |creatures| && |predatorInputs| == |predators|
      modifies creatures, predators, Partners()
      modifies this`foodToRemove, this`creaturesToRemove, this`creaturesToAdd, this`predatorsToAdd
      modifies this`maxCreatureGeneration, this`maxPredatorGeneration
      ensures WellFormed() && Appendable() && BirthsFresh()
      ensures creatures == old(creatures) && predators == old(predators) && food == old(food)
      ensures forall a :: a in creatures && a.markedDead ==> a in creaturesToRemove
      ensures forall a :: a in creaturesToAdd ==> fresh(a)
      ensures forall a :: a in predatorsToAdd ==> fresh(a)
    {
      UpdateCreatures(dt, creatureInputs);
      UpdatePredators(dt, predatorInputs);
    }

    /** `updateWorld`: the buffers are cleared, every agent is updated, and
        the removals, births, caps and food regrowth are applied. Afterwards
        the populations are within their caps and hold no dead or marked
        agent, and only agents that were there before or were born during
        the tick. */
    method UpdateWorld(dt: real, creatureInputs: seq<AgentInput>, predatorInputs: seq<AgentInput>,
                       foodSpots: seq<Vec2>)
      requires Valid()
      requires |creatureInputs| == |creatures| && |predatorInputs| == |predators| && |foodSpots| >= 5
      modifies this, creatures, predators, Partners()
      ensures Valid() && |creatures| <= MaxCreatures && |predators| <= MaxPredators
      ensures forall a :: a in creatures ==> !a.isDead && (a in old(creatures) || fresh(a))
      ensures forall a :: a in predators ==> !a.isDead && (a in old(predators) || fresh(a))
      ensures simulationTime == old(simulationTime) && paused == old(paused)
    {
      ClearBuffers();
      UpdateAgents(dt, creatureInputs, predatorInputs);
      Conclude(foodSpots);
    }

    /** One frame of `gameLoop`: unless paused, the clock advances by `dt` and
        the world takes one tick; while paused nothing changes. */
    method Frame(dt: real, creatureInputs: seq<AgentInput>, predatorInputs: seq<AgentInput>,
                 foodSpots: seq<Vec2>)
      requires Valid()
      requires |creatureInputs| == |creatures| && |predatorInputs| == |predators| && |foodSpots| >= 5
      modifies this, creatures, predators, Partners()
      ensures Valid()
      ensures old(paused) ==>
                creatures == old(creatures) && predators == old(predators) && food == old(food) &&
                simulationTime == old(simulationTime) && selected == old(selected)
      ensures !old(paused) ==>
                simulationTime == old(simulationTime) + dt &&
                |creatures| <= MaxCreatures && |predators| <= MaxPredators &&
                (forall a :: a in creatures ==> !a.isDead && (a in old(creatures) || fresh(a))) &&
                (forall a :: a in predators ==> !a.isDead && (a in old(predators) || fresh(a)))
    {
      if !paused {
        simulationTime := simulationTime + dt;
        UpdateWorld(dt, creatureInputs, predatorInputs, foodSpots);
      }
    }
  }

  /** `forEach` over a population: the removal list extended, in list order,
      by every dead agent not yet on it. */
  function Listed(pop: seq<Agent>, removed: seq<Agent>): (r: seq<Agent>)
    reads pop
    ensures removed <= r
  {
    if pop == [] then removed
    else
      var r := Listed(pop[..|pop| - 1], removed);
      var a := pop[|pop| - 1];
      if a.isDead && a !in r then r + [a] else r
  }

  /** The listing holds exactly the agents that were already listed and the
      dead agents of the population. */
  lemma {:induction false} ListedMembers(pop: seq<Agent>, removed: seq<Agent>, a: Agent)
    ensures a in Listed(pop, removed) <==> a in removed || (a in pop && a.isDead)
  {
    if pop != [] {
      ListedMembers(pop[..|pop| - 1], removed, a);
      assert pop == pop[..|pop| - 1] + [pop[|pop| - 1]];
    }
  }

  /** The `forEach` loop that lists the dead. */
  method ListDead(pop: seq<Agent>, removed: seq<Agent>) returns (r: seq<Agent>)
    ensures r == Listed(pop, removed)
  {
    r := removed;
    for i := 0 to |pop|
      invariant r == Listed(pop[..i], removed)
    {
      assert pop[..i + 1][..i] == pop[..i];
      if pop[i].isDead && pop[i] !in r {
        r := r + [pop[i]];
      }
    }
    assert pop[..|pop|] == pop;
  }

  /** The two filters of the end of a tick, `filter(a => !removed.includes(a))`
      then `filter(a => !a.isDead)`: the members of `pop`, in order, that are
      not listed in `removed` and not dead. */
  function Survivors(pop: seq<Agent>, removed: seq<Agent>): (r: seq<Agent>)
    reads pop
    ensures forall a :: a in r ==> a in pop && a !in removed && !a.isDead
    ensures forall a :: a in pop && a !in removed && !a.isDead ==> a in r
  {
    if pop == [] then []
    else
      var a := pop[|pop| - 1];
      Survivors(pop[..|pop| - 1], removed) + (if a !in removed && !a.isDead then [a] else [])
  }

  /** When every dead member is listed, the second filter removes nothing:
      the survivors are the unlisted members. */
  lemma {:induction false} SurvivorsUnlisted(pop: seq<Agent>, removed: seq<Agent>)
    requires forall a :: a in pop && a.isDead ==> a in removed
    ensures Survivors(pop, removed) == Without(pop, removed)
  {
    if pop != [] {
      SurvivorsUnlisted(pop[..|pop| - 1], removed);
    }
  }

  /** The `forEach` listing lists every dead member, so after it the
      second filter is redundant. */
  lemma ListedLeavesNoDead(pop: seq<Agent>, removed: seq<Agent>)
    ensures Survivors(pop, Listed(pop, removed)) == Without(pop, Listed(pop, removed))
  {
    var listed := Listed(pop, removed);
    forall a | a in pop && a.isDead
      ensures a in listed
    {
      ListedMembers(pop, removed, a);
    }
    SurvivorsUnlisted(pop, listed);
  }

  /** Filtering keeps a list without duplicates without duplicates. */
  lemma {:induction false} SurvivorsDistinct(pop: seq<Agent>, removed: seq<Agent>)
    requires Distinct(pop)
    ensures Distinct(Survivors(pop, removed))
  {
    if pop != [] {
      var init := pop[..|pop| - 1];
      SurvivorsDistinct(init, removed);
      var a := pop[|pop| - 1];
      assert a !in init;
      DistinctConcat(Survivors(init, removed), if a !in removed && !a.isDead then [a] else []);
    }
  }

  /** A population at the end of a tick. */
  ghost function Settled(pop: seq<Agent>, removed: seq<Agent>, added: seq<Agent>, cap: nat): seq<Agent>
    reads pop, added
  {
    var joined := Survivors(pop, removed) + added;
    assert forall i :: 0 <= i < |joined| ==> joined[i] in pop || joined[i] in added;
    Capped(joined, cap)
  }

  /** The agents a cap drops at the end of a tick. */
  ghost function Unsettled(pop: seq<Agent>, removed: seq<Agent>, added: seq<Agent>, cap: nat): seq<Agent>
    reads pop, added
  {
    var joined := Survivors(pop, removed) + added;
    assert forall i :: 0 <= i < |joined| ==> joined[i] in pop || joined[i] in added;
    CappedOut(joined, cap)
  }

  /** Every agent a tick's end leaves is a living, unlisted member of the
      population or a birth; no more than `cap` remain. */
  lemma SettledMembers(pop: seq<Agent>, removed: seq<Agent>, added: seq<Agent>, cap: nat)
    ensures forall a :: a in Settled(pop, removed, added, cap) ==>
              (a in pop && a !in removed && !a.isDead) || a in added
    ensures |Settled(pop, removed, added, cap)| <= cap
  {
    CappedMembers(Survivors(pop, removed) + added, cap);
  }

  /** Sorting a population by energy (`sort((a, b) => a.energy - b.energy)`,
      stable) and splicing off its head down to the cap. Returns what stays
      and what goes. */
  method CullPopulation(pop: seq<Agent>, cap: nat) returns (kept: seq<Agent>, dropped: seq<Agent>)
    ensures kept == Capped(pop, cap) && dropped == CappedOut(pop, cap)
  {
    if |pop| <= cap {
      return pop, [];
    }
    var sorted := Firsts(StableSort(Ranked(pop)));
    var n := |pop| - cap;
    CappedSplit(pop, cap);
    kept, dropped := sorted[n..], sorted[..n];
  }

  /** Each agent paired with its energy, the key of the sort. */
  function Ranked(s: seq<Agent>): (r: seq<(Agent, real)>)
    reads s
    ensures Firsts(r) == s
  {
    seq(|s|, i requires 0 <= i < |s| reads s => (s[i], s[i].energy))
  }

  /** An entry of the ranked population is one of its agents with that
      agent's energy as key. */
  lemma RankedEntry(s: seq<Agent>, x: (Agent, real))
    requires x in Ranked(s)
    ensures x.0 in s && x.1 == x.0.energy
  {
    var k :| 0 <= k < |s| && Ranked(s)[k] == x;
  }

  /** The population a cap leaves: the whole list when within the cap,
      otherwise the `cap` most energetic agents in ascending order of energy. */
  function Capped(s: seq<Agent>, cap: nat): (kept: seq<Agent>)
    reads s
    ensures |kept| == if |s| <= cap then |s| else cap
    ensures |s| <= cap ==> kept == s
  {
    Firsts(Cull(Ranked(s), cap))
  }

  /** The agents a cap drops. */
  function CappedOut(s: seq<Agent>, cap: nat): seq<Agent>
    reads s
  {
    Firsts(Culled(Ranked(s), cap))
  }

  /** Above the cap, the cull keeps the tail of the sorted population and
      drops its head. */
  lemma CappedSplit(pop: seq<Agent>, cap: nat)
    requires |pop| > cap
    ensures var sorted := Firsts(StableSort(Ranked(pop)));
            |sorted| == |pop| &&
            Capped(pop, cap) == sorted[|pop| - cap..] && CappedOut(pop, cap) == sorted[..|pop| - cap]
  {
    var n := |pop| - cap;
    FirstsSlices(StableSort(Ranked(pop)), n);
  }

  /** What a cap keeps or drops comes from the population, and every member
      is kept or dropped. */
  lemma CappedMembers(s: seq<Agent>, cap: nat)
    ensures forall a :: a in Capped(s, cap) ==> a in s
    ensures forall a :: a in CappedOut(s, cap) ==> a in s
    ensures forall a :: a in s ==> a in Capped(s, cap) || a in CappedOut(s, cap)
  {
    var ranked := Ranked(s);
    var kept := Cull(ranked, cap);
    var dropped := Culled(ranked, cap);
    CullPartition(ranked, cap);
    forall a | a in Firsts(kept)
      ensures a in s
    {
      var i :| 0 <= i < |kept| && Firsts(kept)[i] == a;
      assert kept[i] in ranked;
    }
    forall a | a in Firsts(dropped)
      ensures a in s
    {
      var i :| 0 <= i < |dropped| && Firsts(dropped)[i] == a;
      assert dropped[i] in ranked;
    }
    forall a | a in s
      ensures a in Firsts(kept) || a in Firsts(dropped)
    {
      var k :| 0 <= k < |s| && s[k] == a;
      var x := ranked[k];
      assert x in ranked;
      if x in kept {
        var i :| 0 <= i < |kept| && kept[i] == x;
        assert Firsts(kept)[i] == a;
      } else {
        var i :| 0 <= i < |dropped| && dropped[i] == x;
        assert Firsts(dropped)[i] == a;
      }
    }
  }

  /** No agent the cap drops has more energy than any agent it keeps. */
  lemma CappedKeepsFittest(s: seq<Agent>, cap: nat)
    ensures forall i, j :: 0 <= i < |CappedOut(s, cap)| && 0 <= j < |Capped(s, cap)| ==>
              CappedOut(s, cap)[i].energy <= Capped(s, cap)[j].energy
  {
    var ranked := Ranked(s);
    var kept := Cull(ranked, cap);
    var dropped := Culled(ranked, cap);
    CullDropsLowest(ranked, cap);
    CullPartition(ranked, cap);
    forall i, j | 0 <= i < |dropped| && 0 <= j < |kept|
      ensures Firsts(dropped)[i].energy <= Firsts(kept)[j].energy
    {
      assert dropped[i] in ranked && kept[j] in ranked;
    }
  }

  /** The cap of a population without duplicates keeps and drops no agent
      twice. */
  lemma CappedDistinct(s: seq<Agent>, cap: nat)
    requires Distinct(s)
    ensures Distinct(Capped(s, cap)) && Distinct(CappedOut(s, cap))
  {
    assert Firsts(Ranked(s)) == s;
    CullDistinctEntries(Ranked(s), cap);
  }
}
