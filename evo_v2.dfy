/** The per-tick engine of the current Python version of the simulator
    (evo_with_gemini_v2.py): herbivore creatures that flee predators, court
    and mate, and forage; predators that hunt and reproduce asexually; and a
    world that applies deferred removals and births once every agent has
    acted, then culls the weakest agents down to each population's cap.

    Randomness, spawn positions and headings are parameters: each agent's
    update is handed the direction its move would take once normalisation,
    separation and the random wander are applied, and the draws its
    offspring would consume. Python's `id()` comparison between partners is
    modelled by a unique serial number per agent. */
module EvoV2 {
  import opened Geometry
  import opened Options
  import opened Genome
  import opened Lifecycle
  import opened Lists
  import opened Ranking
  import Spatial

  const Width: real := 1000.0
  const Height: real := 750.0
  const MaxCreatures: nat := 100
  const MaxPredators: nat := 15
  const FoodCount: nat := 100
  const FoodEnergy: real := 100.0
  const FoodRadius: real := 3.0
  const CreatureMatingRange: real := 15.0
  const CreatureMatingCooldown: real := 1.0
  const PredatorReproductionCost: real := 120.0
  const PredatorMatingCooldown: real := 8.0
  const PredatorHuntEnergyGain: real := 120.0
  /** Pixels per second of one unit of speed. */
  const MoveScale: real := 50.0
  /** Fleeing runs 1.2 times faster and costs 1.5 times the energy. */
  const EvadeSpeedFactor: real := 1.2
  const EvadeCostFactor: real := 1.5

  /** The two agent classes, `Creature` and `Predator`, share one Dafny class;
      their per-kind constants are these functions of the kind. */
  datatype Kind = CreatureKind | PredatorKind

  function Rates(k: Kind): KindRates {
    match k
    case CreatureKind => KindRates(0.15, 100.0, 50.0)
    case PredatorKind => KindRates(0.12, 200.0, 50.0)
  }

  function MoveCost(k: Kind): real {
    match k
    case CreatureKind => 0.5
    case PredatorKind => 0.1
  }

  function Radius(k: Kind): real {
    match k
    case CreatureKind => 5.0
    case PredatorKind => 7.0
  }

  function InitialEnergy(k: Kind): real {
    match k
    case CreatureKind => 100.0
    case PredatorKind => 150.0
  }

  function TraitBounds(k: Kind): Bounds {
    match k
    case CreatureKind => Bounds(0.5, 7.0, 10.0, 100.0)
    case PredatorKind => Bounds(0.5, 5.0, 20.0, 150.0)
  }

  function MutationRate(k: Kind): real {
    match k
    case CreatureKind => 0.5
    case PredatorKind => 0.1
  }

  function MutationStrength(k: Kind): real {
    match k
    case CreatureKind => 0.5
    case PredatorKind => 0.2
  }

  /** The draws an offspring consumes: the two crossover picks (sexual
      reproduction only), the mutation draws, and the spawn jitter, each
      coordinate from `random.uniform(-10, 10)`. */
  datatype SpawnDraws = SpawnDraws(speedPick: real, sensePick: real, mutation: MutationDraws, jitter: Vec2)

  /** What one agent's update is handed for one tick. */
  datatype AgentInput = AgentInput(heading: Vec2, spawn: SpawnDraws)

  /** A food pellet; it never changes once placed. */
  class Food {
    const pos: Vec2
    const radius: real

    constructor (pos: Vec2)
      ensures this.pos == pos && radius == FoodRadius
    {
      this.pos := pos;
      radius := FoodRadius;
    }
  }

  class Agent {
    const kind: Kind
    /** Stands for Python's `id(self)`: distinct for distinct agents. */
    const id: nat
    const generation: nat
    const genes: Genes
    const radius: real := Radius(kind)
    var pos: Vec2
    var energy: real
    var age: real
    var isDead: bool
    var readyToMate: bool
    var matingCooldown: real
    // Creature targets.
    var targetFood: Food?
    var targetPartner: Agent?
    var matingPartner: Agent?
    // Predator target.
    var targetCreature: Agent?

    /** An agent of the initial population: generation 0, genes drawn within
        the kind's bounds, placed where the spawn loop found room. */
    constructor Founder(kind: Kind, id: nat, pos: Vec2, genes: Genes)
      requires InBounds(genes, TraitBounds(kind))
      ensures this.kind == kind && this.id == id && generation == 0 && this.genes == genes
      ensures this.pos == pos
      ensures Fresh()
    {
      this.kind := kind;
      this.id := id;
      generation := 0;
      this.genes := genes;
      this.pos := pos;
      energy := InitialEnergy(kind);
      age := 0.0;
      isDead := false;
      readyToMate := false;
      matingCooldown := 0.0;
      targetFood := null;
      targetPartner := null;
      matingPartner := null;
      targetCreature := null;
    }

    /** An offspring of `parent`: one generation later, its genes mutated and
        clamped from `childGenes`, placed at the parent's position plus the
        jitter, clamped to the screen. */
    constructor Offspring(kind: Kind, id: nat, parentPos: Vec2, parentGeneration: nat,
                          childGenes: Genes, spawn: SpawnDraws)
      ensures this.kind == kind && this.id == id && generation == parentGeneration + 1
      ensures genes == Mutate(childGenes, spawn.mutation, MutationRate(kind), MutationStrength(kind), TraitBounds(kind))
      ensures pos == ClampToBox(Add(parentPos, spawn.jitter), Radius(kind), Width, Height)
      ensures Fresh()
    {
      this.kind := kind;
      this.id := id;
      generation := parentGeneration + 1;
      genes := Mutate(childGenes, spawn.mutation, MutationRate(kind), MutationStrength(kind), TraitBounds(kind));
      pos := ClampToBox(Add(parentPos, spawn.jitter), Radius(kind), Width, Height);
      energy := InitialEnergy(kind);
      age := 0.0;
      isDead := false;
      readyToMate := false;
      matingCooldown := 0.0;
      targetFood := null;
      targetPartner := null;
      matingPartner := null;
      targetCreature := null;
    }

    /** The state of a newly built agent. */
    ghost predicate Fresh()
      reads this
    {
      energy == InitialEnergy(kind) && age == 0.0 && !isDead && !readyToMate && matingCooldown == 0.0 &&
      targetFood == null && targetPartner == null && matingPartner == null && targetCreature == null
    }

    ghost function Vitals(): Vitals
      reads this
    {
      Lifecycle.Vitals(age, energy, matingCooldown, readyToMate, isDead)
    }

    /** `update_basic_state`: one lifecycle step; the answer is whether the
        agent is now dead (already or newly). */
    method UpdateBasicState(dt: real) returns (gone: bool)
      modifies this`age, this`energy, this`matingCooldown, this`readyToMate, this`isDead
      ensures Vitals() == Step(old(Vitals()), Rates(kind), dt)
      ensures gone == isDead
    {
      if isDead {
        return true;
      }
      age := age + dt;
      energy := energy - Rates(kind).decay * dt;
      if matingCooldown > 0.0 {
        matingCooldown := matingCooldown - dt;
        readyToMate := false;
      } else if energy >= Rates(kind).readyThreshold {
        readyToMate := true;
      } else {
        readyToMate := false;
      }
      if energy <= 0.0 || age >= Rates(kind).maxAge {
        isDead := true;
        return true;
      }
      return false;
    }

    /** The agent's bounding rectangle. */
    function Box(): Rect
      reads this`pos
    {
      BoxAround(pos, radius)
    }

    /** `check_obstacle_collision`: a living agent whose rectangle overlaps an
        obstacle dies. */
    method CheckObstacleCollision(obstacles: seq<Rect>) returns (hit: bool)
      modifies this`isDead
      ensures old(isDead) ==> !hit && isDead
      ensures !old(isDead) ==> (hit <==> exists o :: o in obstacles && Overlap(Box(), o))
      ensures !old(isDead) ==> isDead == hit
    {
      if isDead {
        return false;
      }
      var i := 0;
      while i < |obstacles|
        invariant 0 <= i <= |obstacles|
        invariant forall j :: 0 <= j < i ==> !Overlap(Box(), obstacles[j])
      {
        if Overlap(Box(), obstacles[i]) {
          assert obstacles[i] in obstacles;
          isDead := true;
          return true;
        }
        i := i + 1;
      }
      return false;
    }

    /** `apply_movement`: a living agent with a non-zero heading moves by
        heading * speed * dt * 50, is clamped to the screen, and pays its
        kind's move cost times speed, multiplier and dt. */
    method ApplyMovement(dt: real, heading: Vec2, speed: real, costFactor: real)
      modifies this`pos, this`energy
      ensures isDead || MagSq(heading) == 0.0 ==> pos == old(pos) && energy == old(energy)
      ensures !isDead && MagSq(heading) != 0.0 ==>
                pos == Moved(old(pos), heading, speed * dt, radius) &&
                energy == old(energy) - MoveCost(kind) * speed * costFactor * dt
      ensures !isDead && MagSq(heading) != 0.0 ==> InBox(pos, radius, Width, Height)
    {
      if isDead || MagSq(heading) == 0.0 {
        return;
      }
      pos := Moved(pos, heading, speed * dt, radius);
      energy := energy - MoveCost(kind) * speed * costFactor * dt;
    }

    /** Whether `find_closest_agent` considers `a`: it must be alive, and a
        creature never considers itself (a predator's scan has no such test). */
    predicate Considers(a: Agent)
      reads a`isDead
    {
      !a.isDead && (kind == PredatorKind || a != this)
    }

    /** `c` is what `find_closest_agent` returns from `cands`: a considered
        candidate strictly inside the radius that no considered candidate is
        closer than, and every considered candidate listed before it is
        strictly farther (the scan keeps the first of equally close ones). */
    ghost predicate ClosestOf(cands: seq<Agent>, radiusSq: real, c: Agent)
      reads this`pos, cands`pos, cands`isDead
    {
      c in cands && Considers(c) && DistSq(pos, c.pos) < radiusSq &&
      (forall a :: a in cands && Considers(a) ==> DistSq(pos, a.pos) >= DistSq(pos, c.pos)) &&
      exists k :: 0 <= k < |cands| && cands[k] == c &&
        forall j :: 0 <= j < k && Considers(cands[j]) ==> DistSq(pos, cands[j].pos) > DistSq(pos, c.pos)
    }

    /** The scan's answer is determined by its input: at most one candidate
        is the closest in the sense of `ClosestOf`. */
    lemma {:induction false} ClosestOfUnique(cands: seq<Agent>, radiusSq: real, c: Agent, d: Agent)
      requires ClosestOf(cands, radiusSq, c) && ClosestOf(cands, radiusSq, d)
      ensures c == d
    {
      var k :| 0 <= k < |cands| && cands[k] == c &&
        forall j :: 0 <= j < k && Considers(cands[j]) ==> DistSq(pos, cands[j].pos) > DistSq(pos, c.pos);
      var l :| 0 <= l < |cands| && cands[l] == d &&
        forall j :: 0 <= j < l && Considers(cands[j]) ==> DistSq(pos, cands[j].pos) > DistSq(pos, d.pos);
    }

    /** Whenever some considered candidate lies strictly inside the radius,
        one candidate is `ClosestOf` the list, so the scan finds something. */
    lemma {:induction false} ClosestOfExists(cands: seq<Agent>, radiusSq: real, a: Agent)
      requires a in cands && Considers(a) && DistSq(pos, a.pos) < radiusSq
      ensures exists c :: ClosestOf(cands, radiusSq, c)
      decreases |cands|
    {
      var n := |cands| - 1;
      var p, x := cands[..n], cands[n];
      assert cands == p + [x];
      if b :| b in p && Considers(b) && DistSq(pos, b.pos) < radiusSq {
        ClosestOfExists(p, radiusSq, b);
        var c :| ClosestOf(p, radiusSq, c);
        if Considers(x) && DistSq(pos, x.pos) < DistSq(pos, c.pos) {
          ClosestOfOvertaken(p, radiusSq, c, x);
        } else {
          ClosestOfKept(p, radiusSq, c, x);
        }
      } else {
        ClosestOfFirst(p, radiusSq, x);
      }
    }

    /** Appending a candidate that is not strictly closer keeps the answer. */
    lemma ClosestOfKept(p: seq<Agent>, radiusSq: real, c: Agent, x: Agent)
      requires ClosestOf(p, radiusSq, c)
      requires !(Considers(x) && DistSq(pos, x.pos) < DistSq(pos, c.pos))
      ensures ClosestOf(p + [x], radiusSq, c)
    {
      var k :| 0 <= k < |p| && p[k] == c &&
        forall j :: 0 <= j < k && Considers(p[j]) ==> DistSq(pos, p[j].pos) > DistSq(pos, c.pos);
      assert (p + [x])[k] == c;
    }

    /** Appending a considered candidate strictly closer than the answer
        makes it the answer. */
    lemma ClosestOfOvertaken(p: seq<Agent>, radiusSq: real, c: Agent, x: Agent)
      requires ClosestOf(p, radiusSq, c)
      requires Considers(x) && DistSq(pos, x.pos) < DistSq(pos, c.pos)
      ensures ClosestOf(p + [x], radiusSq, x)
    {
      assert (p + [x])[|p|] == x;
    }

    /** A considered candidate inside the radius appended to a list with no
        considered candidate inside it is the answer. */
    lemma ClosestOfFirst(p: seq<Agent>, radiusSq: real, x: Agent)
      requires forall b :: b in p && Considers(b) ==> DistSq(pos, b.pos) >= radiusSq
      requires Considers(x) && DistSq(pos, x.pos) < radiusSq
      ensures ClosestOf(p + [x], radiusSq, x)
    {
      assert (p + [x])[|p|] == x;
    }

    /** The answer over `p + [x]` in terms of the answer over `p`: either the
        old answer, when `x` is not strictly closer, or `x` itself, when it is
        considered, inside the radius and strictly closer than every
        considered candidate of `p`. */
    lemma ClosestOfSnoc(p: seq<Agent>, radiusSq: real, x: Agent, c: Agent)
      ensures ClosestOf(p + [x], radiusSq, c) <==>
                (ClosestOf(p, radiusSq, c) && !(Considers(x) && DistSq(pos, x.pos) < DistSq(pos, c.pos))) ||
                (c == x && Considers(x) && DistSq(pos, x.pos) < radiusSq &&
                 forall a :: a in p && Considers(a) ==> DistSq(pos, a.pos) > DistSq(pos, x.pos))
    {
      var q := p + [x];
      if ClosestOf(q, radiusSq, c) {
        var k :| 0 <= k < |q| && q[k] == c &&
          forall j :: 0 <= j < k && Considers(q[j]) ==> DistSq(pos, q[j].pos) > DistSq(pos, c.pos);
        if k < |p| {
          assert q[|p|] == x;
          assert p[k] == c && forall j :: 0 <= j < k ==> p[j] == q[j];
          assert forall a :: a in p ==> a in q;
        } else {
          forall a | a in p && Considers(a)
            ensures DistSq(pos, a.pos) > DistSq(pos, x.pos)
          {
            var j :| 0 <= j < |p| && p[j] == a;
            assert q[j] == a;
          }
        }
      } else if ClosestOf(p, radiusSq, c) && !(Considers(x) && DistSq(pos, x.pos) < DistSq(pos, c.pos)) {
        ClosestOfKept(p, radiusSq, c, x);
      } else if c == x && Considers(x) && DistSq(pos, x.pos) < radiusSq {
        assert q[|p|] == x;
      }
    }

    /** Filtering out the dead first, as the predator's retarget does, picks
        the same prey as scanning the whole list, because the scan skips the
        dead anyway. */
    lemma {:induction false} ClosestOfLiving(cs: seq<Agent>, radiusSq: real, c: Agent)
      ensures ClosestOf(Living(cs), radiusSq, c) <==> ClosestOf(cs, radiusSq, c)
      decreases |cs|
    {
      if cs != [] {
        var n := |cs| - 1;
        var p, x := cs[..n], cs[n];
        assert cs == p + [x];
        ClosestOfLiving(p, radiusSq, c);
        ClosestOfSnoc(p, radiusSq, x, c);
        if x.isDead {
          assert Living(cs) == Living(p);
        } else {
          assert Living(cs) == Living(p) + [x];
          ClosestOfSnoc(Living(p), radiusSq, x, c);
          assert forall a :: a in Living(p) && Considers(a) <==> a in p && Considers(a);
        }
      }
    }

    /** `find_closest_agent`: the first candidate it considers at the least
        squared distance strictly inside `radiusSq`, or null and `radiusSq`. */
    method FindClosestAgent(candidates: seq<Agent>, radiusSq: real) returns (closest: Agent?, distSq: real)
      ensures closest == null ==> distSq == radiusSq
      ensures closest == null ==>
                forall a :: a in candidates && Considers(a) ==> DistSq(pos, a.pos) >= radiusSq
      ensures closest != null ==>
                closest in candidates && Considers(closest) &&
                distSq == DistSq(pos, closest.pos) && distSq < radiusSq
      ensures closest != null ==>
                forall a :: a in candidates && Considers(a) ==> DistSq(pos, a.pos) >= distSq
      ensures closest != null ==>
                exists k :: 0 <= k < |candidates| && candidates[k] == closest &&
                  forall j :: 0 <= j < k && Considers(candidates[j]) ==> DistSq(pos, candidates[j].pos) > distSq
    {
      var points := seq(|candidates|, i requires 0 <= i < |candidates| reads candidates => candidates[i].pos);
      var eligible := seq(|candidates|, i requires 0 <= i < |candidates| reads candidates => Considers(candidates[i]));
      var found;
      found, distSq := Spatial.NearestIndex(pos, points, eligible, radiusSq);
      if found.None? {
        closest := null;
        forall a | a in candidates && Considers(a)
          ensures DistSq(pos, a.pos) >= radiusSq
        {
          var i :| 0 <= i < |candidates| && candidates[i] == a;
          assert eligible[i];
        }
      } else {
        var k := found.value;
        closest := candidates[k];
        forall a | a in candidates && Considers(a)
          ensures DistSq(pos, a.pos) >= distSq
        {
          var i :| 0 <= i < |candidates| && candidates[i] == a;
          assert eligible[i];
        }
        forall j | 0 <= j < k && Considers(candidates[j])
          ensures DistSq(pos, candidates[j].pos) > distSq
        {
          assert eligible[j];
        }
      }
    }

    /** `f` is what the scan over `foods` returns: a pellet strictly inside
        the radius, no pellet closer, every pellet before it strictly farther. */
    ghost predicate ClosestFoodOf(foods: seq<Food>, radiusSq: real, f: Food)
      reads this`pos
    {
      f in foods && DistSq(pos, f.pos) < radiusSq &&
      (forall g :: g in foods ==> DistSq(pos, g.pos) >= DistSq(pos, f.pos)) &&
      exists k :: 0 <= k < |foods| && foods[k] == f &&
        forall j :: 0 <= j < k ==> DistSq(pos, foods[j].pos) > DistSq(pos, f.pos)
    }

    /** The creature's scan over the food list: food is never dead and never
        the creature itself, so every pellet is considered. */
    method FindClosestFood(foods: seq<Food>, radiusSq: real) returns (closest: Food?, distSq: real)
      ensures closest == null ==> distSq == radiusSq
      ensures closest == null ==> forall f :: f in foods ==> DistSq(pos, f.pos) >= radiusSq
      ensures closest != null ==>
                closest in foods && distSq == DistSq(pos, closest.pos) && distSq < radiusSq
      ensures closest != null ==> forall f :: f in foods ==> DistSq(pos, f.pos) >= distSq
      ensures closest != null ==>
                exists k :: 0 <= k < |foods| && foods[k] == closest &&
                  forall j :: 0 <= j < k ==> DistSq(pos, foods[j].pos) > distSq
    {
      var points := seq(|foods|, i requires 0 <= i < |foods| => foods[i].pos);
      var eligible := seq(|foods|, i => true);
      var found;
      found, distSq := Spatial.NearestIndex(pos, points, eligible, radiusSq);
      if found.None? {
        closest := null;
        forall f | f in foods
          ensures DistSq(pos, f.pos) >= radiusSq
        {
          var i :| 0 <= i < |foods| && foods[i] == f;
          assert eligible[i];
        }
      } else {
        var k := found.value;
        closest := foods[k];
        forall f | f in foods
          ensures DistSq(pos, f.pos) >= distSq
        {
          var i :| 0 <= i < |foods| && foods[i] == f;
          assert eligible[i];
        }
        forall j | 0 <= j < k
          ensures DistSq(pos, foods[j].pos) > distSq
        {
          assert eligible[j];
        }
      }
    }

    /** This agent's current mating partner, as a set, for frames. */
    function PartnerSet(): set<Agent>
      reads this`matingPartner
    {
      if matingPartner == null then {} else {matingPartner}
    }

    /** `eat`: a living creature gains FOOD_ENERGY, lists the pellet for
        removal unless it is listed already, and drops it as its target. */
    method Eat(w: World, item: Food)
      modifies this`energy, this`targetFood, w`foodToRemove
      ensures isDead ==>
                energy == old(energy) && targetFood == old(targetFood) && w.foodToRemove == old(w.foodToRemove)
      ensures !isDead ==> energy == old(energy) + FoodEnergy
      ensures !isDead ==> w.foodToRemove == old(w.foodToRemove) + (if item in old(w.foodToRemove) then [] else [item])
      ensures !isDead ==> targetFood == (if old(targetFood) == item then null else old(targetFood))
    {
      if !isDead {
        energy := energy + FoodEnergy;
        if item !in w.foodToRemove {
          w.foodToRemove := w.foodToRemove + [item];
        }
        if targetFood == item {
          targetFood := null;
        }
      }
    }

    /** `hunt`: a living predator kills a living prey, gains the hunt energy
        and lists the prey for removal unless it is listed already; in every
        other case nothing changes. */
    method Hunt(w: World, prey: Agent)
      modifies prey`isDead, this`energy, w`creaturesToRemove
      ensures old(isDead) || old(prey.isDead) ==>
                prey.isDead == old(prey.isDead) && energy == old(energy) &&
                w.creaturesToRemove == old(w.creaturesToRemove)
      ensures !old(isDead) && !old(prey.isDead) ==>
                prey.isDead && energy == old(energy) + PredatorHuntEnergyGain &&
                w.creaturesToRemove == old(w.creaturesToRemove) + (if prey in old(w.creaturesToRemove) then [] else [prey])
    {
      if !isDead && !prey.isDead {
        prey.isDead := true;
        energy := energy + PredatorHuntEnergyGain;
        if prey !in w.creaturesToRemove {
          w.creaturesToRemove := w.creaturesToRemove + [prey];
        }
      }
    }

    /** Step 1 of a creature's update: it flees when the closest predator it
        can sense is not at its exact position, dropping every target. That
        happens exactly when some living predator lies strictly inside the
        sense radius and none lies at distance zero. */
    method Evade(w: World, senseSq: real) returns (evading: bool)
      modifies this`targetFood, this`targetPartner, this`matingPartner
      ensures evading <==>
                (exists p :: p in w.predators && Considers(p) && DistSq(pos, p.pos) < senseSq) &&
                (forall p :: p in w.predators && Considers(p) ==> DistSq(pos, p.pos) > 0.0)
      ensures evading ==> targetFood == null && targetPartner == null && matingPartner == null
      ensures !evading ==>
                targetFood == old(targetFood) && targetPartner == old(targetPartner) &&
                matingPartner == old(matingPartner)
    {
      var closest, d := FindClosestAgent(w.predators, senseSq);
      evading := closest != null && d > 0.0;
      if closest == null {
        assert !exists p :: p in w.predators && Considers(p) && DistSq(pos, p.pos) < senseSq;
      } else if d <= 0.0 {
        assert !(Considers(closest) ==> DistSq(pos, closest.pos) > 0.0);
      }
      if evading {
        targetFood := null;
        targetPartner := null;
        matingPartner := null;
      }
    }

    /** The creatures this one would court: others that are ready to mate and
        are unpartnered or partnered with it. */
    function MateCandidates(cs: seq<Agent>): (r: seq<Agent>)
      reads cs
      ensures forall a :: a in r ==> a in cs && a != this && a.readyToMate && (a.matingPartner == null || a.matingPartner == this)
      ensures forall a :: a in cs && a != this && a.readyToMate && (a.matingPartner == null || a.matingPartner == this) ==> a in r
    {
      if cs == [] then []
      else
        var a := cs[|cs| - 1];
        MateCandidates(cs[..|cs| - 1]) +
        (if a != this && a.readyToMate && (a.matingPartner == null || a.matingPartner == this) then [a] else [])
    }

    /** Step 2 of a creature's update, taken when it is not fleeing and is
        ready to mate. With a living, ready partner inside the mating range the
        pair mates (`Mate`). A partner inside the sense radius is approached;
        any other partner is dropped. Without a usable partner the creature
        courts the closest candidate (`Court`). The answer is whether a mating
        attempt is under way, which suppresses foraging. */
    method SeekMate(w: World, senseSq: real, spawn: SpawnDraws) returns (attempt: bool)
      requires kind == CreatureKind && this in w.creatures
      modifies this`matingPartner, this`targetPartner, this`matingCooldown, this`readyToMate
      modifies w.creatures`matingPartner, PartnerSet()`matingPartner, PartnerSet()`matingCooldown, PartnerSet()`readyToMate
      modifies w`creaturesToAdd, w`predatorsToAdd, w`maxCreatureGeneration, w`maxPredatorGeneration, w`nextId
      ensures var p := old(matingPartner);
              p != null && !p.isDead && old(p.readyToMate) &&
              DistSq(pos, p.pos) < CreatureMatingRange * CreatureMatingRange ==>
                attempt && matingPartner == null && p.matingPartner == null &&
                matingCooldown == CreatureMatingCooldown && p.matingCooldown == CreatureMatingCooldown &&
                !readyToMate && !p.readyToMate
      ensures var p := old(matingPartner);
              p != null && !p.isDead && old(p.readyToMate) &&
              CreatureMatingRange * CreatureMatingRange <= DistSq(pos, p.pos) < senseSq ==>
                attempt && matingPartner == p
      ensures var p := old(matingPartner);
              p != null && !p.isDead && old(p.readyToMate) &&
              CreatureMatingRange * CreatureMatingRange <= DistSq(pos, p.pos) && senseSq <= DistSq(pos, p.pos) ==>
                !attempt && matingPartner == null
      ensures |w.creaturesToAdd| > |old(w.creaturesToAdd)| ==>
                var p := old(matingPartner);
                p != null && !p.isDead && old(p.readyToMate) &&
                DistSq(pos, p.pos) < CreatureMatingRange * CreatureMatingRange && id < p.id
      ensures matingPartner != null && matingPartner != old(matingPartner) ==>
                matingPartner in w.creatures && matingPartner != this && matingPartner.matingPartner == this
      ensures !attempt ==> matingPartner == null
      ensures forall a :: a in w.creatures ==>
                a.matingPartner == null || a.matingPartner == old(a.matingPartner) || a.matingPartner in w.creatures
      ensures w.Grew() && (old(w.QueuesOk()) ==> w.QueuesOk())
      ensures w.predatorsToAdd == old(w.predatorsToAdd)
    {
      attempt := false;
      var p := matingPartner;
      if p != null && !p.isDead && p.readyToMate {
        var d := DistSq(pos, p.pos);
        if d < CreatureMatingRange * CreatureMatingRange {
          Mate(w, spawn);
          attempt := true;
        } else if d < senseSq {
          attempt := true;
        } else {
          matingPartner := null;
        }
      } else {
        attempt := Court(w, senseSq);
      }
    }

    /** Mating with the current partner: only the partner with the smaller id
        asks for an offspring (built from the crossover of both genomes), and
        both enter the cooldown, stop being ready and drop each other. */
    method Mate(w: World, spawn: SpawnDraws)
      requires kind == CreatureKind && matingPartner != null
      modifies this`matingPartner, this`matingCooldown, this`readyToMate
      modifies PartnerSet()`matingPartner, PartnerSet()`matingCooldown, PartnerSet()`readyToMate
      modifies w`creaturesToAdd, w`predatorsToAdd, w`maxCreatureGeneration, w`maxPredatorGeneration, w`nextId
      ensures var p := old(matingPartner);
              matingPartner == null && p.matingPartner == null &&
              matingCooldown == CreatureMatingCooldown && p.matingCooldown == CreatureMatingCooldown &&
              !readyToMate && !p.readyToMate
      ensures |w.creaturesToAdd| > |old(w.creaturesToAdd)| ==> id < old(matingPartner).id
      ensures id < old(matingPartner).id && |w.creatures| + |old(w.creaturesToAdd)| < MaxCreatures ==>
                |w.creaturesToAdd| == |old(w.creaturesToAdd)| + 1 &&
                w.creaturesToAdd[|old(w.creaturesToAdd)|].genes ==
                  Mutate(Crossover(genes, old(matingPartner).genes, spawn.speedPick, spawn.sensePick),
                         spawn.mutation, MutationRate(CreatureKind), MutationStrength(CreatureKind),
                         TraitBounds(CreatureKind))
      ensures w.Grew() && (old(w.QueuesOk()) ==> w.QueuesOk())
      ensures w.predatorsToAdd == old(w.predatorsToAdd)
    {
      var p := matingPartner;
      if id < p.id {
        var childGenes := Crossover(genes, p.genes, spawn.speedPick, spawn.sensePick);
        var _ := w.RequestReproduction(this, childGenes, spawn);
      }
      matingCooldown := CreatureMatingCooldown;
      p.matingCooldown := CreatureMatingCooldown;
      readyToMate := false;
      p.readyToMate := false;
      p.matingPartner := null;
      matingPartner := null;
    }

    /** `find_closest_agent` stated through `ClosestOf`: its answer is the
        one candidate that is `ClosestOf` the list, or null when none is. */
    method PickClosest(candidates: seq<Agent>, senseSq: real) returns (closest: Agent?)
      ensures closest != null ==>
                closest in candidates && DistSq(pos, closest.pos) < senseSq && ClosestOf(candidates, senseSq, closest)
      ensures forall c :: ClosestOf(candidates, senseSq, c) ==> c == closest
      ensures closest == null ==>
                forall a :: a in candidates && Considers(a) ==> DistSq(pos, a.pos) >= senseSq
    {
      var d;
      closest, d := FindClosestAgent(candidates, senseSq);
      if closest != null {
        assert ClosestOf(candidates, senseSq, closest);
        forall c | ClosestOf(candidates, senseSq, c)
          ensures c == closest
        {
          ClosestOfUnique(candidates, senseSq, c, closest);
        }
      }
    }

    /** Courting: the creature picks the closest candidate inside its sense
        radius and pairs up with it when the candidate is unpartnered or
        already targets this creature; the pairing is mutual. Otherwise it
        ends up with no partner and no target partner. */
    method Court(w: World, senseSq: real) returns (paired: bool)
      requires this in w.creatures
      modifies this`matingPartner, this`targetPartner, w.creatures`matingPartner
      ensures paired <==> matingPartner != null
      ensures var m := matingPartner;
              paired ==>
                m in w.creatures && m != this && m.matingPartner == this &&
                old(m.readyToMate) && DistSq(pos, m.pos) < senseSq &&
                (old(m.matingPartner) == null || old(m.targetPartner) == this) &&
                targetPartner == m
      ensures !paired ==> targetPartner == null
      ensures var m := matingPartner;
              paired ==> m != null && ClosestOf(old(MateCandidates(w.creatures)), senseSq, m)
      ensures forall c :: c in old(MateCandidates(w.creatures)) && ClosestOf(old(MateCandidates(w.creatures)), senseSq, c) ==>
                (paired <==> old(c.matingPartner) == null || old(c.targetPartner) == this)
      ensures forall a :: a in w.creatures && a != this ==>
                a.matingPartner == old(a.matingPartner) || a.matingPartner == this
    {
      // The candidates never include this creature, so the scan does not
      // depend on its own partner, which `mating` clears before the scan.
      var candidates := MateCandidates(w.creatures);
      var closest := PickClosest(candidates, senseSq);
      ghost var free := closest != null && (closest.matingPartner == null || closest.targetPartner == this);
      assert free <==> closest != null && (old(closest.matingPartner) == null || old(closest.targetPartner) == this);
      paired := Propose(closest);
      assert paired == free;
      forall c | c in candidates && ClosestOf(candidates, senseSq, c)
        ensures paired <==> old(c.matingPartner) == null || old(c.targetPartner) == this
      {
        assert c == closest;
      }
    }

    /** The end of `mating` once the scan has answered: a candidate that is
        unpartnered or already targets this creature is paired with it both
        ways; otherwise the creature is left with no partner and no target. */
    method Propose(c: Agent?) returns (paired: bool)
      requires c != this
      modifies this`matingPartner, this`targetPartner, if c == null then {} else {c}`matingPartner
      ensures paired <==> c != null && (old(c.matingPartner) == null || old(c.targetPartner) == this)
      ensures matingPartner == (if paired then c else null) && targetPartner == matingPartner
      ensures c != null ==> c.matingPartner == (if paired then this else old(c.matingPartner))
    {
      matingPartner := null;
      paired := false;
      if c != null {
        targetPartner := c;
        if c.matingPartner == null || c.targetPartner == this {
          matingPartner := c;
          c.matingPartner := this;
          paired := true;
        } else {
          targetPartner := null;
        }
      } else {
        targetPartner := null;
      }
    }

    /** Step 3 of a creature's update, taken when it neither flees nor
        courts. A target pellet still on the map is eaten on contact (the
        squared distance below the squared sum of radii), kept while inside
        the sense radius, and dropped otherwise; without a target the closest
        pellet inside the sense radius becomes the target. */
    method Forage(w: World, senseSq: real)
      modifies this`energy, this`targetFood, w`foodToRemove
      ensures var t := old(targetFood);
              t != null && t in w.food && DistSq(pos, t.pos) < (radius + t.radius) * (radius + t.radius) ==>
                targetFood == null &&
                (!isDead ==> energy == old(energy) + FoodEnergy &&
                             w.foodToRemove == old(w.foodToRemove) + (if t in old(w.foodToRemove) then [] else [t]))
      ensures var t := old(targetFood);
              !(t != null && t in w.food && DistSq(pos, t.pos) < (radius + t.radius) * (radius + t.radius)) ==>
                energy == old(energy) && w.foodToRemove == old(w.foodToRemove)
      ensures targetFood != null ==> targetFood in w.food && DistSq(pos, targetFood.pos) < senseSq
      ensures var t := old(targetFood);
              t == null || t !in w.food ==>
                (targetFood == null <==> forall f :: f in w.food ==> DistSq(pos, f.pos) >= senseSq) &&
                (targetFood != null ==> ClosestFoodOf(w.food, senseSq, targetFood))
    {
      var t := targetFood;
      if t != null && t in w.food {
        var d := DistSq(pos, t.pos);
        if d < (radius + t.radius) * (radius + t.radius) {
          Eat(w, t);
          targetFood := null;
        } else if d < senseSq {
        } else {
          targetFood := null;
        }
      } else {
        targetFood := null;
        if |w.food| > 0 {
          var closest, _ := FindClosestFood(w.food, senseSq);
          if closest != null {
            targetFood := closest;
          }
        }
      }
    }

    /** `Creature.update`: the lifecycle step, the obstacle check, then
        fleeing (faster and dearer), courting when ready, or foraging, and
        finally the move along the heading the steering rules produced. */
    method UpdateCreature(w: World, dt: real, input: AgentInput) returns (action: CreatureAction)
      requires kind == CreatureKind && this in w.creatures
      modifies this`age, this`energy, this`matingCooldown, this`readyToMate, this`isDead, this`pos
      modifies this`targetFood, this`targetPartner, this`matingPartner
      modifies w.creatures`matingPartner, PartnerSet()`matingPartner, PartnerSet()`matingCooldown, PartnerSet()`readyToMate
      modifies w`foodToRemove, w`creaturesToAdd, w`predatorsToAdd, w`maxCreatureGeneration, w`maxPredatorGeneration, w`nextId
      ensures var v := Step(old(Vitals()), Rates(kind), dt);
              age == v.age && (action == Expired <==> v.dead)
      ensures isDead <==> action == Expired || action == Crashed
      ensures action == Crashed ==> pos == old(pos) && exists o :: o in w.obstacles && Overlap(Box(), o)
      ensures action == Fled ==> targetFood == null && targetPartner == null && matingPartner == null
      ensures action != Foraged ==> w.foodToRemove == old(w.foodToRemove)
      ensures action != Courted ==> w.creaturesToAdd == old(w.creaturesToAdd)
      ensures forall a :: a in w.creatures ==>
                a.matingPartner == null || a.matingPartner == old(a.matingPartner) || a.matingPartner in w.creatures
      ensures w.Grew() && (old(w.QueuesOk()) ==> w.QueuesOk())
      ensures w.predatorsToAdd == old(w.predatorsToAdd)
    {
      var gone := UpdateBasicState(dt);
      if gone {
        return Expired;
      }
      var hit := CheckObstacleCollision(w.obstacles);
      if hit {
        return Crashed;
      }
      action := Live(w, dt, input);
    }

    /** The part of a creature's update after it survived the lifecycle step
        and the obstacle check: steering, then the move. */
    method Live(w: World, dt: real, input: AgentInput) returns (action: CreatureAction)
      requires kind == CreatureKind && this in w.creatures && !isDead
      modifies this`energy, this`matingCooldown, this`readyToMate, this`pos
      modifies this`targetFood, this`targetPartner, this`matingPartner
      modifies w.creatures`matingPartner, PartnerSet()`matingPartner, PartnerSet()`matingCooldown, PartnerSet()`readyToMate
      modifies w`foodToRemove, w`creaturesToAdd, w`predatorsToAdd, w`maxCreatureGeneration, w`maxPredatorGeneration, w`nextId
      ensures action == Fled || action == Courted || action == Foraged
      ensures action == Fled ==> targetFood == null && targetPartner == null && matingPartner == null
      ensures MagSq(input.heading) != 0.0 ==> InBox(pos, radius, Width, Height)
      ensures MagSq(input.heading) == 0.0 ==> pos == old(pos)
      ensures action == Fled && MagSq(input.heading) != 0.0 ==>
                energy == old(energy) - MoveCost(kind) * SpeedFor(action) * EvadeCostFactor * dt
      ensures action != Foraged ==> w.foodToRemove == old(w.foodToRemove)
      ensures action != Courted ==> w.creaturesToAdd == old(w.creaturesToAdd)
      ensures forall a :: a in w.creatures ==>
                a.matingPartner == null || a.matingPartner == old(a.matingPartner) || a.matingPartner in w.creatures
      ensures w.Grew() && (old(w.QueuesOk()) ==> w.QueuesOk())
      ensures w.predatorsToAdd == old(w.predatorsToAdd)
    {
      action := Steer(w, input.spawn);
      ApplyMovement(dt, input.heading, SpeedFor(action), if action == Fled then EvadeCostFactor else 1.0);
    }

    /** A creature's speed for the tick: its gene, raised while fleeing. */
    function SpeedFor(action: CreatureAction): real {
      if action == Fled then genes.speed * EvadeSpeedFactor else genes.speed
    }

    /** The choice a living creature makes inside its sense radius: flee,
        else court when ready, else forage. */
    method Steer(w: World, spawn: SpawnDraws) returns (action: CreatureAction)
      requires kind == CreatureKind && this in w.creatures
      modifies this`energy, this`matingCooldown, this`readyToMate
      modifies this`targetFood, this`targetPartner, this`matingPartner
      modifies w.creatures`matingPartner, PartnerSet()`matingPartner, PartnerSet()`matingCooldown, PartnerSet()`readyToMate
      modifies w`foodToRemove, w`creaturesToAdd, w`predatorsToAdd, w`maxCreatureGeneration, w`maxPredatorGeneration, w`nextId
      ensures action == Fled || action == Courted || action == Foraged
      ensures action == Fled ==> targetFood == null && targetPartner == null && matingPartner == null
      ensures action != Foraged ==> energy == old(energy) && w.foodToRemove == old(w.foodToRemove)
      ensures action != Courted ==> w.creaturesToAdd == old(w.creaturesToAdd)
      ensures action == Courted ==> old(readyToMate)
      ensures forall a :: a in w.creatures ==>
                a.matingPartner == null || a.matingPartner == old(a.matingPartner) || a.matingPartner in w.creatures
      ensures w.Grew() && (old(w.QueuesOk()) ==> w.QueuesOk())
      ensures w.predatorsToAdd == old(w.predatorsToAdd)
    {
      var senseSq := genes.sense * genes.sense;
      var evading := Evade(w, senseSq);
      if evading {
        return Fled;
      }
      var attempt := false;
      if readyToMate {
        attempt := SeekMate(w, senseSq, spawn);
      }
      if attempt {
        action := Courted;
      } else {
        Forage(w, senseSq);
        action := Foraged;
      }
    }

    /** Step 1 of a predator's update. The current target is checked first
        (`Chase`); after a bite, or when the target was lost, the closest
        living creature inside the sense radius becomes the target. The
        answer is whether the predator has prey to chase. */
    method Stalk(w: World, senseSq: real) returns (preyFound: bool)
      requires kind == PredatorKind && !isDead && this !in w.creatures
      modifies this`targetCreature, this`energy, w.creatures`isDead, w`creaturesToRemove
      ensures preyFound <==> targetCreature != null
      ensures targetCreature != null ==>
                targetCreature in w.creatures && !targetCreature.isDead && DistSq(pos, targetCreature.pos) < senseSq
      ensures targetCreature == null ==>
                forall c :: c in w.creatures && !c.isDead ==> DistSq(pos, c.pos) >= senseSq
      ensures targetCreature != null && targetCreature != old(targetCreature) ==>
                ClosestOf(w.creatures, senseSq, targetCreature)
      ensures var t := old(targetCreature);
              old(Bites(w, t, senseSq)) ==>
                t.isDead && energy == old(energy) + PredatorHuntEnergyGain &&
                w.creaturesToRemove == old(w.creaturesToRemove) + (if t in old(w.creaturesToRemove) then [] else [t]) &&
                targetCreature != t
      ensures !old(Bites(w, targetCreature, senseSq)) ==>
                energy == old(energy) && w.creaturesToRemove == old(w.creaturesToRemove)
      ensures forall c :: c in w.creatures && c != old(targetCreature) ==> c.isDead == old(c.isDead)
      ensures forall c :: c in w.creatures && c.isDead && !old(c.isDead) ==> c in w.creaturesToRemove
      ensures w.Grew()
    {
      var valid := Chase(w, senseSq);
      preyFound := valid;
      if !valid {
        preyFound := Retarget(w, senseSq);
      }
    }

    /** The search after the current target was dropped: the closest living
        creature inside the sense radius, if any, becomes the target. */
    method Retarget(w: World, senseSq: real) returns (found: bool)
      requires kind == PredatorKind && targetCreature == null
      modifies this`targetCreature
      ensures found <==> targetCreature != null
      ensures targetCreature != null ==>
                targetCreature in w.creatures && !targetCreature.isDead && DistSq(pos, targetCreature.pos) < senseSq &&
                ClosestOf(w.creatures, senseSq, targetCreature)
      ensures targetCreature == null ==>
                forall c :: c in w.creatures && !c.isDead ==> DistSq(pos, c.pos) >= senseSq
    {
      found := false;
      if |w.creatures| > 0 {
        var closest := PickPrey(w, senseSq);
        if closest != null {
          targetCreature := closest;
          found := true;
        }
      }
    }

    /** The predator's scan over the living creatures. */
    method PickPrey(w: World, senseSq: real) returns (closest: Agent?)
      requires kind == PredatorKind
      ensures closest != null ==>
                closest in w.creatures && !closest.isDead && DistSq(pos, closest.pos) < senseSq &&
                ClosestOf(Living(w.creatures), senseSq, closest) && ClosestOf(w.creatures, senseSq, closest)
      ensures closest == null ==>
                forall c :: c in w.creatures && !c.isDead ==> DistSq(pos, c.pos) >= senseSq
    {
      closest := PickClosest(Living(w.creatures), senseSq);
      if closest != null {
        ClosestOfLiving(w.creatures, senseSq, closest);
      }
    }

    /** The current target is kept while it is listed, alive and inside the
        sense radius, and bitten (`hunt`) when the squared distance is below
        the squared sum of radii, after which it is dropped; a target that is
        not kept is dropped. The answer is whether the target is kept. */
    method Chase(w: World, senseSq: real) returns (kept: bool)
      requires kind == PredatorKind && !isDead && this !in w.creatures
      modifies this`targetCreature, this`energy, w.creatures`isDead, w`creaturesToRemove
      ensures kept <==> targetCreature != null
      ensures kept ==>
                targetCreature == old(targetCreature) && targetCreature in w.creatures &&
                !targetCreature.isDead && DistSq(pos, targetCreature.pos) < senseSq
      ensures var t := old(targetCreature);
              old(Bites(w, t, senseSq)) ==>
                t.isDead && energy == old(energy) + PredatorHuntEnergyGain &&
                w.creaturesToRemove == old(w.creaturesToRemove) + (if t in old(w.creaturesToRemove) then [] else [t])
      ensures !old(Bites(w, targetCreature, senseSq)) ==>
                energy == old(energy) && w.creaturesToRemove == old(w.creaturesToRemove)
      ensures forall c :: c in w.creatures && c != old(targetCreature) ==> c.isDead == old(c.isDead)
      ensures forall c :: c in w.creatures && c.isDead && !old(c.isDead) ==> c in w.creaturesToRemove
      ensures w.Grew()
    {
      var t := targetCreature;
      kept := false;
      if t != null && t in w.creatures && !t.isDead {
        var d := DistSq(pos, t.pos);
        if d < senseSq {
          kept := true;
          if d < (radius + t.radius) * (radius + t.radius) {
            Hunt(w, t);
            targetCreature := null;
            kept := false;
          }
        } else {
          targetCreature := null;
        }
      } else {
        targetCreature := null;
      }
    }

    /** Whether this predator bites `t` now: `t` is listed, alive, inside the
        sense radius and overlapping (squared distance below the squared sum
        of radii). */
    ghost predicate Bites(w: World, t: Agent?, senseSq: real)
      reads this`pos, w`creatures, t
    {
      t != null && t in w.creatures && !t.isDead &&
      DistSq(pos, t.pos) < senseSq && DistSq(pos, t.pos) < (radius + t.radius) * (radius + t.radius)
    }

    /** `Predator.update`: the lifecycle step, the obstacle check, stalking,
        the move, then asexual reproduction: a ready predator, while the
        predator list is below its cap, pays the reproduction cost, asks for an
        offspring with its own genes, and enters the cooldown. */
    method UpdatePredator(w: World, dt: real, input: AgentInput)
      requires kind == PredatorKind && this !in w.creatures
      modifies this`age, this`energy, this`matingCooldown, this`readyToMate, this`isDead, this`pos, this`targetCreature
      modifies w.creatures`isDead, w`creaturesToRemove
      modifies w`creaturesToAdd, w`predatorsToAdd, w`maxCreatureGeneration, w`maxPredatorGeneration, w`nextId
      ensures var v := Step(old(Vitals()), Rates(kind), dt);
              age == v.age && (v.dead ==> isDead && w.creaturesToRemove == old(w.creaturesToRemove) &&
                                           w.predatorsToAdd == old(w.predatorsToAdd))
      ensures forall c :: c in w.creatures && c != old(targetCreature) ==> c.isDead == old(c.isDead)
      ensures forall c :: c in w.creatures && c.isDead && !old(c.isDead) ==> c in w.creaturesToRemove
      ensures var v := Step(old(Vitals()), Rates(kind), dt);
              !isDead && v.ready && |w.predators| < MaxPredators ==>
                matingCooldown == PredatorMatingCooldown && !readyToMate
      ensures var v := Step(old(Vitals()), Rates(kind), dt);
              !isDead && !(v.ready && |w.predators| < MaxPredators) ==>
                matingCooldown == v.cooldown && readyToMate == v.ready && w.predatorsToAdd == old(w.predatorsToAdd)
      ensures w.creaturesToAdd == old(w.creaturesToAdd)
      ensures w.Grew() && (old(w.QueuesOk()) ==> w.QueuesOk())
    {
      var gone := UpdateBasicState(dt);
      if gone {
        return;
      }
      var hit := CheckObstacleCollision(w.obstacles);
      if hit {
        return;
      }
      Prowl(w, dt, input);
    }

    /** The part of a predator's update after it survived the lifecycle step
        and the obstacle check: stalking, the move, then reproduction. */
    method Prowl(w: World, dt: real, input: AgentInput)
      requires kind == PredatorKind && !isDead && this !in w.creatures
      modifies this`energy, this`matingCooldown, this`readyToMate, this`pos, this`targetCreature
      modifies w.creatures`isDead, w`creaturesToRemove
      modifies w`creaturesToAdd, w`predatorsToAdd, w`maxCreatureGeneration, w`maxPredatorGeneration, w`nextId
      ensures forall c :: c in w.creatures && c != old(targetCreature) ==> c.isDead == old(c.isDead)
      ensures forall c :: c in w.creatures && c.isDead && !old(c.isDead) ==> c in w.creaturesToRemove
      ensures old(readyToMate) && |w.predators| < MaxPredators ==>
                matingCooldown == PredatorMatingCooldown && !readyToMate
      ensures !(old(readyToMate) && |w.predators| < MaxPredators) ==>
                matingCooldown == old(matingCooldown) && readyToMate == old(readyToMate) &&
                w.predatorsToAdd == old(w.predatorsToAdd)
      ensures |w.predatorsToAdd| > |old(w.predatorsToAdd)| ==>
                |w.predatorsToAdd| == |old(w.predatorsToAdd)| + 1 &&
                w.predatorsToAdd[|old(w.predatorsToAdd)|].genes ==
                  Mutate(genes, input.spawn.mutation, MutationRate(PredatorKind), MutationStrength(PredatorKind),
                         TraitBounds(PredatorKind))
      ensures w.creaturesToAdd == old(w.creaturesToAdd)
      ensures w.Grew() && (old(w.QueuesOk()) ==> w.QueuesOk())
    {
      var senseSq := genes.sense * genes.sense;
      var _ := Stalk(w, senseSq);
      ApplyMovement(dt, input.heading, genes.speed, 1.0);
      Reproduce(w, input.spawn);
    }

    /** Asexual reproduction: a ready predator, while the predator list is
        below its cap, pays the reproduction cost, asks for an offspring with
        its own genes, and enters the cooldown; the cost is paid even when the
        request is turned down because the queued births fill the cap. */
    method Reproduce(w: World, spawn: SpawnDraws)
      requires kind == PredatorKind
      modifies this`energy, this`matingCooldown, this`readyToMate
      modifies w`creaturesToAdd, w`predatorsToAdd, w`maxCreatureGeneration, w`maxPredatorGeneration, w`nextId
      ensures old(readyToMate) && |w.predators| < MaxPredators ==>
                energy == old(energy) - PredatorReproductionCost &&
                matingCooldown == PredatorMatingCooldown && !readyToMate
      ensures !(old(readyToMate) && |w.predators| < MaxPredators) ==>
                energy == old(energy) && matingCooldown == old(matingCooldown) && readyToMate == old(readyToMate) &&
                w.predatorsToAdd == old(w.predatorsToAdd)
      ensures |w.predatorsToAdd| > |old(w.predatorsToAdd)| ==>
                old(readyToMate) &&
                |w.predatorsToAdd| == |old(w.predatorsToAdd)| + 1 &&
                w.predatorsToAdd[|old(w.predatorsToAdd)|].genes ==
                  Mutate(genes, spawn.mutation, MutationRate(PredatorKind), MutationStrength(PredatorKind),
                         TraitBounds(PredatorKind))
      ensures old(readyToMate) && |w.predators| + |old(w.predatorsToAdd)| < MaxPredators ==>
                |w.predatorsToAdd| == |old(w.predatorsToAdd)| + 1
      ensures w.creaturesToAdd == old(w.creaturesToAdd)
      ensures w.Grew() && (old(w.QueuesOk()) ==> w.QueuesOk())
    {
      if readyToMate && |w.predators| < MaxPredators {
        energy := energy - PredatorReproductionCost;
        var _ := w.RequestReproduction(this, genes, spawn);
        matingCooldown := PredatorMatingCooldown;
        readyToMate := false;
      }
    }
  }

  /** The living agents of a list, in order (the predator's prey filter). */
  function Living(cs: seq<Agent>): (r: seq<Agent>)
    reads cs`isDead
    ensures forall a :: a in r ==> a in cs && !a.isDead
    ensures forall a :: a in cs && !a.isDead ==> a in r
  {
    if cs == [] then []
    else Living(cs[..|cs| - 1]) + (if cs[|cs| - 1].isDead then [] else [cs[|cs| - 1]])
  }

  /** Where a step of `distance` along `heading` (scaled by the movement
      constant) takes an agent of the given radius, clamped to the screen. */
  function Moved(p: Vec2, heading: Vec2, distance: real, radius: real): Vec2 {
    ClampToBox(Add(p, Scale(heading, distance * MoveScale)), radius, Width, Height)
  }

  /** How a creature's update for one tick ended. */
  datatype CreatureAction = Expired | Crashed | Fled | Courted | Foraged

  class World {
    var creatures: seq<Agent>
    var predators: seq<Agent>
    var food: seq<Food>
    var creaturesToRemove: seq<Agent>
    var predatorsToRemove: seq<Agent>
    var foodToRemove: seq<Food>
    var creaturesToAdd: seq<Agent>
    var predatorsToAdd: seq<Agent>
    var maxCreatureGeneration: nat
    var maxPredatorGeneration: nat
    var selected: Agent?
    var paused: bool
    var simulationTime: real
    /** The next serial number handed to a newborn agent. */
    var nextId: nat
    const obstacles: seq<Rect>

    /** Queued births: appendable, counted in the generation maxima, and never
        more than the cap leaves room for. */
    ghost predicate QueuesOk()
      reads this
    {
      Appendable() &&
      (forall a :: a in creaturesToAdd ==> a.generation <= maxCreatureGeneration) &&
      (forall a :: a in predatorsToAdd ==> a.generation <= maxPredatorGeneration) &&
      (creaturesToAdd == [] || |creatures| + |creaturesToAdd| <= MaxCreatures) &&
      (predatorsToAdd == [] || |predators| + |predatorsToAdd| <= MaxPredators)
    }

    /** Queued births are of the right kind, listed once each and not yet in
        their population, so appending them keeps the lists valid. */
    ghost predicate Appendable()
      reads this
    {
      (forall a :: a in creaturesToAdd ==> a.kind == CreatureKind) &&
      (forall a :: a in predatorsToAdd ==> a.kind == PredatorKind) &&
      Distinct(creaturesToAdd) && Distinct(predatorsToAdd) &&
      (forall a :: a in creaturesToAdd ==> a !in creatures) &&
      (forall a :: a in predatorsToAdd ==> a !in predators)
    }

    /** Between two states of one tick the removal list of creatures and the
        birth queues only grow, and the births are newly built agents still in
        their initial state. */
    twostate predicate Grew()
      reads this, creaturesToAdd, predatorsToAdd
    {
      old(creaturesToRemove) <= creaturesToRemove &&
      old(creaturesToAdd) <= creaturesToAdd &&
      (forall i :: |old(creaturesToAdd)| <= i < |creaturesToAdd| ==>
         fresh(creaturesToAdd[i]) && creaturesToAdd[i].Fresh()) &&
      old(predatorsToAdd) <= predatorsToAdd &&
      (forall i :: |old(predatorsToAdd)| <= i < |predatorsToAdd| ==>
         fresh(predatorsToAdd[i]) && predatorsToAdd[i].Fresh())
    }

    /** `request_reproduction`: queues an offspring of the parent's kind when
        the population plus the births already queued is below the cap; the
        offspring is one generation past its parent and the kind's
        generation maximum is raised to it. */
    method RequestReproduction(parent: Agent, childGenes: Genes, spawn: SpawnDraws) returns (child: Agent?)
      modifies this`creaturesToAdd, this`predatorsToAdd, this`maxCreatureGeneration, this`maxPredatorGeneration, this`nextId
      ensures child != null <==>
                if parent.kind == CreatureKind then |creatures| + |old(creaturesToAdd)| < MaxCreatures
                else |predators| + |old(predatorsToAdd)| < MaxPredators
      ensures child == null ==>
                creaturesToAdd == old(creaturesToAdd) && predatorsToAdd == old(predatorsToAdd) &&
                maxCreatureGeneration == old(maxCreatureGeneration) && maxPredatorGeneration == old(maxPredatorGeneration)
      ensures child != null ==>
                fresh(child) && child.Fresh() && child.kind == parent.kind &&
                child.generation == parent.generation + 1 &&
                child.genes == Mutate(childGenes, spawn.mutation, MutationRate(parent.kind),
                                      MutationStrength(parent.kind), TraitBounds(parent.kind)) &&
                child.pos == ClampToBox(Add(parent.pos, spawn.jitter), Radius(parent.kind), Width, Height)
      ensures child != null && parent.kind == CreatureKind ==>
                creaturesToAdd == old(creaturesToAdd) + [child] && predatorsToAdd == old(predatorsToAdd) &&
                maxCreatureGeneration == MaxNat(old(maxCreatureGeneration), child.generation) &&
                maxPredatorGeneration == old(maxPredatorGeneration)
      ensures child != null && parent.kind == PredatorKind ==>
                predatorsToAdd == old(predatorsToAdd) + [child] && creaturesToAdd == old(creaturesToAdd) &&
                maxPredatorGeneration == MaxNat(old(maxPredatorGeneration), child.generation) &&
                maxCreatureGeneration == old(maxCreatureGeneration)
      ensures Grew() && (old(QueuesOk()) ==> QueuesOk())
    {
      child := null;
      if parent.kind == CreatureKind {
        if |creatures| + |creaturesToAdd| < MaxCreatures {
          child := new Agent.Offspring(CreatureKind, nextId, parent.pos, parent.generation, childGenes, spawn);
          nextId := nextId + 1;
          creaturesToAdd := creaturesToAdd + [child];
          maxCreatureGeneration := MaxNat(maxCreatureGeneration, child.generation);
        }
      } else {
        if |predators| + |predatorsToAdd| < MaxPredators {
          child := new Agent.Offspring(PredatorKind, nextId, parent.pos, parent.generation, childGenes, spawn);
          nextId := nextId + 1;
          predatorsToAdd := predatorsToAdd + [child];
          maxPredatorGeneration := MaxNat(maxPredatorGeneration, child.generation);
        }
      }
    }

    /** An empty world with the given obstacles, running, at time zero. */
    constructor (obstacles: seq<Rect>)
      ensures this.obstacles == obstacles
      ensures creatures == [] && predators == [] && food == []
      ensures creaturesToRemove == [] && predatorsToRemove == [] && foodToRemove == []
      ensures creaturesToAdd == [] && predatorsToAdd == []
      ensures selected == null && !paused && simulationTime == 0.0
      ensures Valid() && QueuesOk()
    {
      this.obstacles := obstacles;
      creatures := [];
      predators := [];
      food := [];
      creaturesToRemove := [];
      predatorsToRemove := [];
      foodToRemove := [];
      creaturesToAdd := [];
      predatorsToAdd := [];
      maxCreatureGeneration := 0;
      maxPredatorGeneration := 0;
      selected := null;
      paused := false;
      simulationTime := 0.0;
      nextId := 0;
    }

    /** The lists hold agents of the right kind, and no agent or pellet
        twice. */
    ghost predicate Valid()
      reads this
    {
      (forall c :: c in creatures ==> c.kind == CreatureKind) &&
      (forall p :: p in predators ==> p.kind == PredatorKind) &&
      Distinct(creatures) && Distinct(predators) && Distinct(food)
    }

    /** The creatures' current mating partners, which a tick may update even
        when they are no longer listed. */
    ghost function Partners(): set<Agent?>
      reads this, creatures
    {
      set c | c in creatures :: c.matingPartner
    }

    /** The creature loop of a tick: each creature, in list order, takes its
        update; every creature that is dead afterwards is listed for removal
        once. */
    method UpdateCreatures(dt: real, inputs: seq<AgentInput>)
      requires Valid() && QueuesOk() && creaturesToAdd == []
      requires |inputs| == |creatures|
      modifies creatures, Partners()
      modifies this`foodToRemove, this`creaturesToRemove, this`creaturesToAdd, this`predatorsToAdd
      modifies this`maxCreatureGeneration, this`maxPredatorGeneration, this`nextId
      ensures forall c :: c in creatures && c.isDead ==> c in creaturesToRemove
      ensures Grew() && QueuesOk() && predatorsToAdd == old(predatorsToAdd)
    {
      ghost var partners := Partners();
      for i := 0 to |creatures|
        invariant Grew() && QueuesOk() && predatorsToAdd == old(predatorsToAdd)
        invariant forall j :: 0 <= j < i && creatures[j].isDead ==> creatures[j] in creaturesToRemove
        invariant forall c :: c in creatures ==>
                    c.matingPartner == null || c.matingPartner in creatures || c.matingPartner in partners
      {
        var c := creatures[i];
        StepCreature(c, dt, inputs[i]);
      }
    }

    /** One turn of the creature loop: the creature's update, then its
        listing for removal if it died. */
    method StepCreature(c: Agent, dt: real, input: AgentInput)
      requires c in creatures && c.kind == CreatureKind
      modifies c, creatures`matingPartner, c.PartnerSet()
      modifies this`foodToRemove, this`creaturesToRemove, this`creaturesToAdd, this`predatorsToAdd
      modifies this`maxCreatureGeneration, this`maxPredatorGeneration, this`nextId
      ensures c.isDead ==> c in creaturesToRemove
      ensures forall a :: a in creatures && a != c ==> a.isDead == old(a.isDead)
      ensures forall a :: a in creatures ==>
                a.matingPartner == null || a.matingPartner == old(a.matingPartner) || a.matingPartner in creatures
      ensures Grew() && (old(QueuesOk()) ==> QueuesOk()) && predatorsToAdd == old(predatorsToAdd)
    {
      var _ := c.UpdateCreature(this, dt, input);
      ListDeadCreature(c);
    }

    /** The predator loop of a tick: each predator, in list order, takes its
        update; every predator that is dead afterwards is listed for removal
        once, and every creature killed is listed by the hunt. */
    method UpdatePredators(dt: real, inputs: seq<AgentInput>)
      requires Valid() && QueuesOk() && predatorsToAdd == []
      requires |inputs| == |predators|
      requires forall c :: c in creatures && c.isDead ==> c in creaturesToRemove
      requires forall a :: a in creaturesToAdd ==> a.Fresh()
      modifies predators, creatures
      modifies this`creaturesToRemove, this`predatorsToRemove, this`creaturesToAdd, this`predatorsToAdd
      modifies this`maxCreatureGeneration, this`maxPredatorGeneration, this`nextId
      ensures forall p :: p in predators && p.isDead ==> p in predatorsToRemove
      ensures forall c :: c in creatures && c.isDead ==> c in creaturesToRemove
      ensures forall a :: a in creaturesToAdd ==> a.Fresh()
      ensures Grew() && QueuesOk() && creaturesToAdd == old(creaturesToAdd)
    {
      for i := 0 to |predators|
        invariant Grew() && QueuesOk() && creaturesToAdd == old(creaturesToAdd)
        invariant forall j :: 0 <= j < i && predators[j].isDead ==> predators[j] in predatorsToRemove
        invariant forall c :: c in creatures && c.isDead ==> c in creaturesToRemove
        invariant forall a :: a in creaturesToAdd ==> a.Fresh()
      {
        StepPredator(predators[i], dt, inputs[i]);
      }
    }

    /** One turn of the predator loop: the predator's update, then its
        listing for removal if it died. */
    method StepPredator(p: Agent, dt: real, input: AgentInput)
      requires Valid() && QueuesOk() && p in predators
      requires forall c :: c in creatures && c.isDead ==> c in creaturesToRemove
      requires forall a :: a in creaturesToAdd ==> a.Fresh()
      modifies p, creatures
      modifies this`creaturesToRemove, this`predatorsToRemove, this`creaturesToAdd, this`predatorsToAdd
      modifies this`maxCreatureGeneration, this`maxPredatorGeneration, this`nextId
      ensures p.isDead ==> p in predatorsToRemove
      ensures predatorsToRemove == old(predatorsToRemove) || predatorsToRemove == old(predatorsToRemove) + [p]
      ensures forall q :: q in predators && q != p ==> q.isDead == old(q.isDead)
      ensures forall c :: c in creatures && c.isDead ==> c in creaturesToRemove
      ensures forall a :: a in creaturesToAdd ==> a.Fresh()
      ensures Grew() && QueuesOk() && creaturesToAdd == old(creaturesToAdd)
    {
      assert p !in creatures;
      p.UpdatePredator(this, dt, input);
      ListDeadPredator(p);
    }

    /** A creature found dead after its update is listed for removal, once. */
    method ListDeadCreature(c: Agent)
      modifies this`creaturesToRemove
      ensures creaturesToRemove == old(creaturesToRemove) + if c.isDead && c !in old(creaturesToRemove) then [c] else []
    {
      if c.isDead && c !in creaturesToRemove {
        creaturesToRemove := creaturesToRemove + [c];
      }
    }

    /** A predator found dead after its update is listed for removal, once. */
    method ListDeadPredator(p: Agent)
      modifies this`predatorsToRemove
      ensures predatorsToRemove == old(predatorsToRemove) + if p.isDead && p !in old(predatorsToRemove) then [p] else []
    {
      if p.isDead && p !in predatorsToRemove {
        predatorsToRemove := predatorsToRemove + [p];
      }
    }

    /** Caps one population: above the cap it is sorted by energy and the
        weakest are dropped. Returns what stays and what goes. */
    method CullPopulation(pop: seq<Agent>, cap: nat) returns (kept: seq<Agent>, dropped: seq<Agent>)
      ensures kept == CullAgents(pop, cap) && dropped == CulledAgents(pop, cap)
    {
      if |pop| <= cap {
        return pop, [];
      }
      var sorted := Firsts(StableSort(Keyed(pop)));
      var n := |pop| - cap;
      CullSplit(pop, cap);
      kept, dropped := sorted[n..], sorted[..n];
    }

    /** The creatures once the tick's removals, births and cap are applied. */
    ghost function NextCreatures(): seq<Agent>
      reads this, creatures, creaturesToAdd
    {
      Settled(creatures, creaturesToRemove, creaturesToAdd, MaxCreatures)
    }

    /** The predators once the tick's removals, births and cap are applied. */
    ghost function NextPredators(): seq<Agent>
      reads this, predators, predatorsToAdd
    {
      Settled(predators, predatorsToRemove, predatorsToAdd, MaxPredators)
    }

    /** The selection survives the end of a tick unless its agent is removed
        or dropped by a cap. */
    ghost function NextSelected(): Agent?
      reads this, creatures, creaturesToAdd, predators, predatorsToAdd
    {
      if selected in creaturesToRemove || selected in predatorsToRemove ||
         selected in Unsettled(creatures, creaturesToRemove, creaturesToAdd, MaxCreatures) ||
         selected in Unsettled(predators, predatorsToRemove, predatorsToAdd, MaxPredators)
      then null else selected
    }

    /** The end of a tick: the listed pellets, creatures and predators are
        removed (clearing the selection when it is listed), the queued births
        are appended, and each population is capped (clearing the selection
        when the cap drops it). */
    method Commit()
      requires Valid() && Appendable()
      modifies this`food, this`creatures, this`predators, this`selected
      ensures food == Without(old(food), foodToRemove)
      ensures creatures == old(NextCreatures()) && predators == old(NextPredators())
      ensures selected == old(NextSelected())
      ensures Valid()
    {
      var f, c, p, droppedC, droppedP := SettleLists();
      var chosen := SettleSelection(droppedC, droppedP);
      Store(f, c, p, chosen);
    }

    /** Writes the settled lists and selection back. */
    method Store(f: seq<Food>, c: seq<Agent>, p: seq<Agent>, chosen: Agent?)
      modifies this`food, this`creatures, this`predators, this`selected
      ensures food == f && creatures == c && predators == p && selected == chosen
    {
      food, creatures, predators, selected := f, c, p, chosen;
    }

    /** The selection after a tick's end, from the agents the caps drop: it
        is cleared when its agent is removed or dropped. */
    method SettleSelection(droppedC: seq<Agent>, droppedP: seq<Agent>) returns (chosen: Agent?)
      requires droppedC == Unsettled(creatures, creaturesToRemove, creaturesToAdd, MaxCreatures)
      requires droppedP == Unsettled(predators, predatorsToRemove, predatorsToAdd, MaxPredators)
      ensures chosen == NextSelected()
    {
      chosen := selected;
      if chosen in creaturesToRemove || chosen in predatorsToRemove {
        chosen := null;
      }
      chosen := Deselected(chosen, droppedC);
      chosen := Deselected(chosen, droppedP);
    }

    /** The new food and population lists, with the agents each cap
        drops. */
    method SettleLists() returns (f: seq<Food>, c: seq<Agent>, p: seq<Agent>, droppedC: seq<Agent>, droppedP: seq<Agent>)
      requires Valid() && Appendable()
      ensures f == Without(food, foodToRemove) && Distinct(f)
      ensures c == NextCreatures() && droppedC == Unsettled(creatures, creaturesToRemove, creaturesToAdd, MaxCreatures)
      ensures p == NextPredators() && droppedP == Unsettled(predators, predatorsToRemove, predatorsToAdd, MaxPredators)
      ensures Distinct(c) && Distinct(p)
      ensures (forall a :: a in c ==> a.kind == CreatureKind) && (forall a :: a in p ==> a.kind == PredatorKind)
    {
      var joinedCreatures, joinedPredators;
      f, joinedCreatures, joinedPredators := Pruned();
      c, droppedC := CullPopulation(joinedCreatures, MaxCreatures);
      p, droppedP := CullPopulation(joinedPredators, MaxPredators);
      CullDistinct(joinedCreatures, MaxCreatures);
      CullDistinct(joinedPredators, MaxPredators);
    }

    /** The lists as removal and birth leave them, before any cap: each is
        still free of duplicates and holds only agents of its kind. */
    method Pruned() returns (f: seq<Food>, c: seq<Agent>, p: seq<Agent>)
      requires Valid() && Appendable()
      ensures f == Without(food, foodToRemove) && Distinct(f)
      ensures c == Without(creatures, creaturesToRemove) + creaturesToAdd && Distinct(c)
      ensures p == Without(predators, predatorsToRemove) + predatorsToAdd && Distinct(p)
      ensures forall a :: a in c ==> a.kind == CreatureKind
      ensures forall a :: a in p ==> a.kind == PredatorKind
    {
      f := RemoveListed(food, foodToRemove);
      var survivors := RemoveListed(creatures, creaturesToRemove);
      var hunters := RemoveListed(predators, predatorsToRemove);
      forall a | a in survivors
        ensures a in creatures && a !in creaturesToAdd
      {
        WithoutMembers(creatures, creaturesToRemove, a);
      }
      forall a | a in hunters
        ensures a in predators && a !in predatorsToAdd
      {
        WithoutMembers(predators, predatorsToRemove, a);
      }
      DistinctConcat(survivors, creaturesToAdd);
      DistinctConcat(hunters, predatorsToAdd);
      c := survivors + creaturesToAdd;
      p := hunters + predatorsToAdd;
    }

    /** One frame of the main loop: the buffers are cleared; unless paused,
        the clock advances, every creature and then every predator is
        updated, the removals, births and caps are committed and food may
        regrow. Afterwards the populations are within their caps, hold no dead
        agent, and hold only agents that were there before or were born
        during the frame. */
    method Tick(dt: real, creatureInputs: seq<AgentInput>, predatorInputs: seq<AgentInput>,
                foodDraw: real, foodSpots: seq<Vec2>)
      requires Valid()
      requires |creatureInputs| == |creatures| && |predatorInputs| == |predators| && |foodSpots| >= 10
      modifies this, creatures, predators, Partners()
      ensures Valid()
      ensures old(paused) ==>
                creatures == old(creatures) && predators == old(predators) && food == old(food) &&
                simulationTime == old(simulationTime)
      ensures !old(paused) ==> simulationTime == old(simulationTime) + dt
      ensures |creatures| <= MaxCreatures || creatures == old(creatures)
      ensures |predators| <= MaxPredators || predators == old(predators)
      ensures !old(paused) ==> forall a :: a in creatures ==> !a.isDead && (a in old(creatures) || fresh(a))
      ensures !old(paused) ==> forall a :: a in predators ==> !a.isDead && (a in old(predators) || fresh(a))
    {
      ClearBuffers();
      if !paused {
        simulationTime := simulationTime + dt;
        UpdateAgents(dt, creatureInputs, predatorInputs);
        Conclude(foodDraw, foodSpots);
      }
    }

    /** The update half of a frame: every creature, then every predator, is
        updated; the dead are listed for removal and the births queued are
        new, living agents of the right kind. */
    method UpdateAgents(dt: real, creatureInputs: seq<AgentInput>, predatorInputs: seq<AgentInput>)
      requires Valid()
      requires creaturesToRemove == [] && predatorsToRemove == [] && foodToRemove == []
      requires creaturesToAdd == [] && predatorsToAdd == []
      requires |creatureInputs| == |creatures| && |predatorInputs| == |predators|
      modifies creatures, predators, Partners()
      modifies this`foodToRemove, this`creaturesToRemove, this`predatorsToRemove, this`creaturesToAdd, this`predatorsToAdd
      modifies this`maxCreatureGeneration, this`maxPredatorGeneration, this`nextId
      ensures Valid() && Appendable()
      ensures creatures == old(creatures) && predators == old(predators) && food == old(food)
      ensures forall a :: a in creatures && a.isDead ==> a in creaturesToRemove
      ensures forall a :: a in predators && a.isDead ==> a in predatorsToRemove
      ensures forall a :: a in creaturesToAdd ==> fresh(a) && !a.isDead
      ensures forall a :: a in predatorsToAdd ==> fresh(a) && !a.isDead
    {
      UpdateCreatures(dt, creatureInputs);
      UpdatePredators(dt, predatorInputs);
    }

    /** The commit half of a frame: removals, births and caps, then food
        regrowth. Only listed survivors and queued births remain. */
    method Conclude(foodDraw: real, foodSpots: seq<Vec2>)
      requires Valid() && Appendable() && |foodSpots| >= 10
      requires forall a :: a in creatures && a.isDead ==> a in creaturesToRemove
      requires forall a :: a in predators && a.isDead ==> a in predatorsToRemove
      requires forall a :: a in creaturesToAdd ==> !a.isDead
      requires forall a :: a in predatorsToAdd ==> !a.isDead
      modifies this`food, this`creatures, this`predators, this`selected
      ensures Valid() && |creatures| <= MaxCreatures && |predators| <= MaxPredators
      ensures forall a :: a in creatures ==> !a.isDead && (a in old(creatures) || a in creaturesToAdd)
      ensures forall a :: a in predators ==> !a.isDead && (a in old(predators) || a in predatorsToAdd)
    {
      SettledMembers(creatures, creaturesToRemove, creaturesToAdd, MaxCreatures);
      SettledMembers(predators, predatorsToRemove, predatorsToAdd, MaxPredators);
      Commit();
      ReplenishFood(foodDraw, foodSpots);
    }

    /** The start of a frame: every deferred buffer is emptied. */
    method ClearBuffers()
      modifies this`creaturesToRemove, this`predatorsToRemove, this`foodToRemove
      modifies this`creaturesToAdd, this`predatorsToAdd
      ensures creaturesToRemove == [] && predatorsToRemove == [] && foodToRemove == []
      ensures creaturesToAdd == [] && predatorsToAdd == []
    {
      creaturesToRemove, predatorsToRemove, foodToRemove := [], [], [];
      creaturesToAdd, predatorsToAdd := [], [];
    }

    /** Food regrowth: when fewer than half the starting pellets remain and
        the draw falls below 0.05, ten placements are tried, each adding a
        pellet while the list is below one and a half times the starting
        count. */
    method ReplenishFood(draw: real, spots: seq<Vec2>)
      requires |spots| >= 10
      modifies this`food
      ensures |old(food)| < FoodCount / 2 && draw < 0.05 ==>
                |food| == |old(food)| + 10 && old(food) <= food &&
                forall i :: |old(food)| <= i < |food| ==> fresh(food[i]) && food[i].pos == spots[i - |old(food)|]
      ensures !(|old(food)| < FoodCount / 2 && draw < 0.05) ==> food == old(food)
      ensures Distinct(old(food)) ==> Distinct(food)
    {
      if |food| < FoodCount / 2 && draw < 0.05 {
        for k := 0 to 10
          invariant |food| == |old(food)| + k && old(food) <= food
          invariant forall i :: |old(food)| <= i < |food| ==> fresh(food[i]) && food[i].pos == spots[i - |old(food)|]
          invariant Distinct(old(food)) ==> Distinct(food)
        {
          if (|food| as real) < (FoodCount as real) * 1.5 {
            var f := new Food(spots[k]);
            food := food + [f];
          }
        }
      }
    }
  }

  /** A population at the end of a tick: the listed agents removed, the
      births appended, and the cap applied. */
  ghost function Settled(pop: seq<Agent>, removed: seq<Agent>, added: seq<Agent>, cap: nat): seq<Agent>
    reads pop, added
  {
    var joined := Without(pop, removed) + added;
    WithoutSubset(pop, removed);
    assert forall i :: 0 <= i < |joined| ==> joined[i] in pop || joined[i] in added;
    CullAgents(joined, cap)
  }

  /** Every agent a tick's end leaves was either listed and not removed, or
      born during the tick; at most `cap` remain unless the list was already
      within it. */
  lemma SettledMembers(pop: seq<Agent>, removed: seq<Agent>, added: seq<Agent>, cap: nat)
    ensures forall a :: a in Settled(pop, removed, added, cap) ==> (a in pop && a !in removed) || a in added
    ensures |Settled(pop, removed, added, cap)| <= cap
  {
    forall a | a in Settled(pop, removed, added, cap)
      ensures (a in pop && a !in removed) || a in added
    {
      WithoutMembers(pop, removed, a);
    }
  }

  /** The agents that cap drops at the end of a tick. */
  ghost function Unsettled(pop: seq<Agent>, removed: seq<Agent>, added: seq<Agent>, cap: nat): seq<Agent>
    reads pop, added
  {
    var joined := Without(pop, removed) + added;
    WithoutSubset(pop, removed);
    assert forall i :: 0 <= i < |joined| ==> joined[i] in pop || joined[i] in added;
    CulledAgents(joined, cap)
  }

  /** The scan over a culled head: the selection survives unless it is
      among the dropped agents. */
  method Deselected(chosen: Agent?, dropped: seq<Agent>) returns (r: Agent?)
    ensures r == if chosen in dropped then null else chosen
  {
    r := chosen;
    var i := 0;
    while i < |dropped|
      invariant 0 <= i <= |dropped|
      invariant r == chosen
      invariant forall j :: 0 <= j < i ==> dropped[j] != chosen
    {
      if dropped[i] == r {
        r := null;
        break;
      }
      i := i + 1;
    }
  }

  /** Python's `max` on two generation counts. */
  function MaxNat(a: nat, b: nat): (m: nat)
    ensures m >= a && m >= b && (m == a || m == b)
  {
    if a >= b then a else b
  }

  /** Each agent paired with its energy, the key the cull sorts by. */
  function Keyed(s: seq<Agent>): (r: seq<(Agent, real)>)
    reads s
    ensures Firsts(r) == s
  {
    seq(|s|, i requires 0 <= i < |s| reads s => (s[i], s[i].energy))
  }

  /** An entry of the keyed population is one of its agents with that
      agent's energy. */
  lemma KeyedEntry(s: seq<Agent>, x: (Agent, real))
    requires x in Keyed(s)
    ensures x.0 in s && x.1 == x.0.energy
  {
    var k :| 0 <= k < |s| && Keyed(s)[k] == x;
  }

  /** The population a cap leaves: the whole list when within the cap,
      otherwise the `cap` most energetic agents in ascending order of energy. */
  function CullAgents(s: seq<Agent>, cap: nat): (kept: seq<Agent>)
    reads s
    ensures |kept| == if |s| <= cap then |s| else cap
    ensures |s| <= cap ==> kept == s
    ensures forall a :: a in kept ==> a in s
  {
    CullMembers(s, cap);
    Firsts(Cull(Keyed(s), cap))
  }

  /** The agents a cap drops. */
  function CulledAgents(s: seq<Agent>, cap: nat): seq<Agent>
    reads s
  {
    Firsts(Culled(Keyed(s), cap))
  }

  lemma CullMembers(s: seq<Agent>, cap: nat)
    ensures forall a :: a in Firsts(Cull(Keyed(s), cap)) ==> a in s
  {
    var kept := Cull(Keyed(s), cap);
    CullPartition(Keyed(s), cap);
    forall a | a in Firsts(kept)
      ensures a in s
    {
      var i :| 0 <= i < |kept| && Firsts(kept)[i] == a;
      KeyedEntry(s, kept[i]);
    }
  }

  /** Above the cap, the cull keeps the tail of the sorted population and
      drops its head. */
  lemma CullSplit(pop: seq<Agent>, cap: nat)
    requires |pop| > cap
    ensures var sorted := Firsts(StableSort(Keyed(pop)));
            |sorted| == |pop| &&
            CullAgents(pop, cap) == sorted[|pop| - cap..] && CulledAgents(pop, cap) == sorted[..|pop| - cap]
  {
    var keyed := Keyed(pop);
    var n := |pop| - cap;
    assert Cull(keyed, cap) == StableSort(keyed)[n..];
    assert Culled(keyed, cap) == StableSort(keyed)[..n];
    FirstsSlices(StableSort(keyed), n);
  }

  /** Culling splits the population into what it keeps and what it drops:
      every agent is one or the other, and nothing else is dropped. */
  lemma CullCovers(s: seq<Agent>, cap: nat)
    ensures forall a :: a in s ==> a in CullAgents(s, cap) || a in CulledAgents(s, cap)
    ensures forall a :: a in CulledAgents(s, cap) ==> a in s
  {
    var kept := Cull(Keyed(s), cap);
    var dropped := Culled(Keyed(s), cap);
    CullPartition(Keyed(s), cap);
    forall a | a in s
      ensures a in Firsts(kept) || a in Firsts(dropped)
    {
      var k :| 0 <= k < |s| && s[k] == a;
      var x := Keyed(s)[k];
      assert x in Keyed(s);
      if x in kept {
        var i :| 0 <= i < |kept| && kept[i] == x;
        assert Firsts(kept)[i] == a;
      } else {
        var i :| 0 <= i < |dropped| && dropped[i] == x;
        assert Firsts(dropped)[i] == a;
      }
    }
    forall a | a in Firsts(dropped)
      ensures a in s
    {
      var i :| 0 <= i < |dropped| && Firsts(dropped)[i] == a;
      KeyedEntry(s, dropped[i]);
    }
  }

  /** No agent the cull drops has more energy than any agent it keeps. */
  lemma CullKeepsFittest(s: seq<Agent>, cap: nat)
    ensures forall i, j :: 0 <= i < |CulledAgents(s, cap)| && 0 <= j < |CullAgents(s, cap)| ==>
              CulledAgents(s, cap)[i].energy <= CullAgents(s, cap)[j].energy
  {
    var kept := Cull(Keyed(s), cap);
    var dropped := Culled(Keyed(s), cap);
    CullDropsLowest(Keyed(s), cap);
    CullPartition(Keyed(s), cap);
    forall i, j | 0 <= i < |dropped| && 0 <= j < |kept|
      ensures Firsts(dropped)[i].energy <= Firsts(kept)[j].energy
    {
      KeyedEntry(s, dropped[i]);
      KeyedEntry(s, kept[j]);
    }
  }

  /** The cull of a population without duplicates keeps and drops no agent
      twice. */
  lemma CullDistinct(s: seq<Agent>, cap: nat)
    requires Distinct(s)
    ensures Distinct(CullAgents(s, cap)) && Distinct(CulledAgents(s, cap))
  {
    CullDistinctEntries(Keyed(s), cap);
  }
}
