# Evolution simulation — a verified model of the per-tick engine

The repository is a small artificial-life simulation in three versions:
`evo_with_gemini_v2.py` (the main pygame version), `web_version/script.js`
(its port to the browser) and `evo_with_gemini.py` (the earlier pygame
version). Creatures wander an arena with rectangular obstacles, eat food
pellets, pair up and mate; predators chase and eat creatures and reproduce
alone. Every agent carries two genes (speed and sense radius) that are
inherited with crossover and mutation. Each tick ages every agent, drains
its energy, kills it when energy or age runs out or when it touches an
obstacle, lets it act, and then commits the tick: eaten food and dead agents
are removed, newborns are appended, each population is culled to its cap by
dropping the agents with the least energy, and food regrows.

The model keeps the source's own form. Agents and the world are classes
whose fields the methods update in place; each agent method is proved
against the behaviour of the code it models, and the pure parts (clamping,
gene inheritance, the life-cycle step, list removal, the stable sort behind
the cull) are functions with lemmas.

Modules:

- `Geometry` (geometry.dfy): points, squared distance, `clamp`, keeping a
  point inside the arena, axis-aligned rectangle overlap (pygame
  `colliderect`). `Options` holds an `Option` type.
- `Genome` (genome.dfy): genes, crossover and the mutation of v2 and the web
  port (mutate, then clamp).
- `Lifecycle` (lifecycle.dfy): `update_basic_state` as a pure step on an
  agent's vital signs, with lemmas over runs of many ticks.
- `Spatial` (spatial.dfy): the "first strictly closest point inside a
  radius" scan shared by every `find_closest_*`.
- `Lists` (lists.dfy): `list.remove`, "keep what is not listed", and
  duplicate-freedom.
- `Ranking` (ranking.dfy): Python's stable `list.sort(key=...)` as an
  insertion sort, and the cull that drops the lowest-ranked entries.
- `JsNumbers` (js_numbers.dfy): the few JavaScript number semantics the web
  port depends on, including NaN from `random()` with no arguments.
- `WebVectors` (web_vectors.dfy): the web port's mutable `Vec2` class and its
  `Obstacle` with `contains` and `collidesWithCircle`. The agents of
  `EvoWeb` hold their positions as `Geometry.Vec2` values, so the in-place
  updates of this class are modelled and proved on their own but are not
  used by the agent model.
- `EvoV2` (evo_v2.dfy), `EvoWeb` (evo_web.dfy), `EvoV1` (evo_v1.dfy): agents,
  food and the world of each version, with the tick.

Things the code does that a reader of the design might not expect, each
stated as a proved contract:

- v2: the eaten pellet is only listed for removal, so several creatures can
  eat the same pellet in one tick and each gains its energy
  (`EvoV2.Agent.Forage`, `EvoV2.Agent.Eat`).
- v2: when two partners meet, only the one with the smaller serial number
  asks for a child; if the other one reaches its partner first the pair
  resets with no child (`EvoV2.Agent.Mate`, `EvoV2.Agent.SeekMate`). Python's
  `id()` is modelled as a serial number handed out by the world.
- Web port: `random()` with no arguments is `Math.floor(NaN * ...)`, i.e.
  NaN, so `random() < 0.5` is always false. Crossover always takes the second
  parent's genes and mutation never happens (`EvoWeb.CrossoverGenes`,
  `EvoWeb.MutatedTrait`).
- Web port: `hunt` sets a property `is_dead` that is distinct from
  `isDead`; the eaten creature stays alive until it dies on its own, but it
  is listed for removal and removed (`EvoWeb.Agent.Hunt`, field `markedDead`).
- Web port: the class body defines `calculateWallAvoidance` twice; the later
  definition (margin `radius + 1`) is the one in effect (`EvoWeb.WallPush`).
- Web port: offspring positions are not clamped into the arena, and creature
  mating does not check the population cap (`EvoWeb.Agent.CreateOffspring`,
  `EvoWeb.Agent.Mate`).
- Web port: the commit clears the selected agent only when the cull drops
  it (`EvoWeb.World.Commit`). The interface refresh that runs every frame
  also clears a selection whose `is_dead` property a hunt has set; that
  refresh belongs to the user interface and is not modelled. So only an
  agent that dies of old age, hunger or a crash stays selected after it has
  been removed from its population.
- v1: inherited genes are clamped into bounds even when no mutation happens,
  so an out-of-bounds parent gene does not survive unchanged
  (`EvoV1.InheritClampsUnmutated`).

## Model

| member | source | states |
|---|---|---|
| Geometry.DistSq | evo_with_gemini_v2.py:91-92 | a squared distance is never negative |
| Geometry.MagSq | evo_with_gemini_v2.py:94-100 | a squared length is never negative; a zero vector is the case `normalize_vec` maps to zero |
| Geometry.Clamp | evo_with_gemini_v2.py:102-103 | with lo ≤ hi the result lies in [lo, hi]; values inside are unchanged, values below give lo, above give hi; with hi < lo the outer `max` gives lo |
| Geometry.ClampToBox | evo_with_gemini_v2.py:202-203 | clamping both coordinates puts an agent of radius r inside the arena whenever the arena is at least 2r wide and high, and leaves a point already inside unchanged |
| Genome.Crossover | evo_with_gemini_v2.py:105-109 | each child trait is one of the two parents' traits, so a child of in-bounds parents is in bounds |
| Genome.MutateTrait | evo_with_gemini_v2.py:264-269 | a trait whose rate draw is not below the rate is unchanged; a mutated trait is clamped into [lo, hi]; an in-bounds trait stays in bounds |
| Genome.MutationStepBounded | evo_with_gemini_v2.py:265-266 | mutating an in-bounds non-negative trait, clamp included, moves it by at most strength × value |
| Genome.Mutate | evo_with_gemini_v2.py:262-269 | in-bounds genes stay in bounds; unmutated traits are kept; mutated traits land in bounds |
| Genome.OffspringInBounds | evo_with_gemini_v2.py:333-334 | crossover followed by mutation of two in-bounds parents always yields in-bounds genes |
| Lifecycle.Step | evo_with_gemini_v2.py:166-182 | a dead agent is unchanged; a living one ages by exactly dt and loses exactly decay × dt of energy, and dies exactly when energy ≤ 0 or age ≥ max age; with no cooldown left it is ready exactly when its energy reaches the threshold; a running cooldown counts down by dt and keeps it unready |
| Lifecycle.DeadStaysDead | evo_with_gemini_v2.py:167 | over any run of ticks a dead agent never changes |
| Lifecycle.AliveMeansFed | evo_with_gemini_v2.py:179-181 | an agent alive after a non-empty run has positive energy and is younger than its max age |
| Lifecycle.AgeIsElapsedTime | evo_with_gemini_v2.py:168 | while alive, age is the initial age plus the sum of all dt |
| Lifecycle.AgeMonotone | evo_with_gemini_v2.py:168 | with non-negative dt, age never decreases |
| Lifecycle.EnergyNeverGrows | evo_with_gemini_v2.py:169 | with non-negative decay and dt, the basic step never increases energy |
| Spatial.NearestIndex | evo_with_gemini_v2.py:426-438 | returns the first eligible point strictly closest among those strictly inside the radius, with its squared distance, or none (and the radius) when no eligible point is inside |
| Lists.Without | evo_with_gemini_v2.py:959-966 | removing the listed items never lengthens the list |
| Lists.WithoutMembers | evo_with_gemini_v2.py:959-966 | an item survives the removal exactly when it was present and not listed |
| Lists.RemoveFirst | evo_with_gemini_v2.py:960 | `list.remove(x)` takes out exactly one occurrence of a present item (as a multiset) and leaves the list unchanged when x is absent |
| Lists.WithoutSubset | evo_with_gemini_v2.py:959-966 | removal only keeps items of the original list |
| Lists.RemoveFirstDistinct | evo_with_gemini_v2.py:960 | on a duplicate-free list, `remove(x)` is the same as dropping every x |
| Lists.WithoutDistinct | evo_with_gemini_v2.py:959-966 | removal keeps a list duplicate-free |
| Lists.RemoveListed | evo_with_gemini_v2.py:959-960 | the loop `for item in listed: if item in s: s.remove(item)` on a duplicate-free list leaves exactly the unlisted items, in order, duplicate-free |
| Ranking.StableSort | evo_with_gemini_v2.py:976 | sorting keeps the length |
| Ranking.StableSortPermutes | evo_with_gemini_v2.py:976 | sorting is a permutation |
| Ranking.StableSortSorts | evo_with_gemini_v2.py:976 | the result is ordered by key |
| Ranking.StableSortKeepsTies | evo_with_gemini_v2.py:976 | entries with equal keys keep their relative order (the sort is stable) |
| Ranking.InsertPermutes | evo_with_gemini_v2.py:976 | inserting one entry adds exactly that entry |
| Ranking.InsertSorted | evo_with_gemini_v2.py:976 | inserting into a sorted list keeps it sorted |
| Ranking.Cull | evo_with_gemini_v2.py:973-983 | a list within the cap is kept as is; a longer one is cut to exactly the cap |
| Ranking.CullDropsLowest | evo_with_gemini_v2.py:973-983 | kept and dropped entries together are the original list, and every dropped key is ≤ every kept key |
| Ranking.CullPartition | evo_with_gemini_v2.py:973-983 | every entry is kept or dropped, and both come from the original list |
| JsNumbers.Clamp | web_version/script.js:193-195 | NaN stays NaN; a number is clamped as in the shared geometry and lands in [min, max] |
| JsNumbers.Random | web_version/script.js:211-221 | with no arguments the result is NaN and compares below nothing; only `random(undefined, max)` is the raw draw; with a first argument the result is a number |
| JsNumbers.RandomOneBound | web_version/script.js:212-215 | `random(a)` is `random(0, a)`, so for a non-negative integer a it is an integer in [0, a] |
| JsNumbers.RandomInRange | web_version/script.js:219-220 | with integer bounds the result is an integer between them, both included |
| JsNumbers.ScaledDrawFloor | web_version/script.js:220 | flooring a draw times m gives an index in [0, m) |
| WebVectors.Vec2.constructor | web_version/script.js:115-118 | the new vector holds the given coordinates |
| WebVectors.Vec2.Set | web_version/script.js:120-124 | the vector now holds the given coordinates |
| WebVectors.Vec2.Add | web_version/script.js:126-130 | the vector becomes the sum of its old value and the argument's old value |
| WebVectors.Vec2.Sub | web_version/script.js:132-136 | the vector becomes the difference; subtracting a vector from itself gives zero |
| WebVectors.Vec2.Mult | web_version/script.js:138-142 | the vector is scaled by k |
| WebVectors.Vec2.Div | web_version/script.js:144-153 | the vector is divided by a non-zero k; dividing by zero gives the zero vector |
| WebVectors.Vec2.Normalize | web_version/script.js:163-169 | a zero vector stays zero; any other becomes the same direction scaled to length one |
| WebVectors.NearestIsNearest | web_version/script.js:303-309 | the clamped point belongs to the obstacle and no point of it is closer to the circle's centre |
| WebVectors.CollidesIffSomePointInside | web_version/script.js:303-309 | `collidesWithCircle` holds exactly when some point of the obstacle lies strictly inside the circle |
| EvoV2.Food.constructor | evo_with_gemini_v2.py:113-124 | a pellet at the given spot with the pellet radius |
| EvoV2.Agent.Founder | evo_with_gemini_v2.py:249-289 | a first-generation agent of the given kind, position and in-bounds genes, alive, untargeted, not ready to mate |
| EvoV2.Agent.Offspring | evo_with_gemini_v2.py:249-289 | a child one generation after its parent, genes mutated from the given child genes, placed at the jittered parent position clamped into the arena |
| EvoV2.Agent.UpdateBasicState | evo_with_gemini_v2.py:166-182 | the agent's vital signs become `Lifecycle.Step` of the old ones and the result says whether it is dead |
| EvoV2.Agent.CheckObstacleCollision | evo_with_gemini_v2.py:184-191 | a dead agent reports no hit; a living one dies and reports a hit exactly when its rectangle overlaps some obstacle |
| EvoV2.Agent.ApplyMovement | evo_with_gemini_v2.py:193-207 | a dead agent or a zero direction changes nothing; otherwise the agent moves by direction × speed × dt × 50, is clamped into the arena, and pays move cost × speed × factor × dt |
| EvoV2.Agent.FindClosestAgent | evo_with_gemini_v2.py:426-438 | the result is a living candidate other than the agent, strictly inside the radius and no farther than any other such candidate, the first in list order among equals; none when no such candidate exists |
| EvoV2.Agent.FindClosestFood | evo_with_gemini_v2.py:384-392 | the first strictly closest pellet strictly inside the sense radius, or none when none is inside |
| EvoV2.Agent.Eat | evo_with_gemini_v2.py:440-446 | a living creature gains the food energy, lists the pellet for removal once, and drops it as target; a dead one changes nothing |
| EvoV2.Agent.Hunt | evo_with_gemini_v2.py:589-594 | a living predator kills living prey, gains the hunt energy and lists the prey once; otherwise nothing changes |
| EvoV2.Agent.Evade | evo_with_gemini_v2.py:315-325 | the creature flees exactly when some living predator is inside its sense radius (and none sits on it exactly), and then drops food, partner and pairing |
| EvoV2.Agent.MateCandidates | evo_with_gemini_v2.py:352-356 | exactly the other creatures that are ready to mate and free or already paired with this one |
| EvoV2.Agent.SeekMate | evo_with_gemini_v2.py:328-350 | a living ready partner in mating range completes the mating (both reset, both on cooldown); a living ready partner farther than the mating range but inside the sense radius is kept and counts as an attempt; one outside the sense radius is dropped with no attempt; a child is queued only when this creature has the smaller serial number; a new partner is a creature paired back; no attempt leaves the creature unpaired |
| EvoV2.Agent.Mate | evo_with_gemini_v2.py:329-342 | both partners are unpaired, unready and on the creature cooldown; a child is requested only by the partner with the smaller serial number and, below the cap, gets mutated crossover genes of the two parents |
| EvoV2.Agent.ClosestOfUnique | evo_with_gemini_v2.py:426-438 | at most one candidate is the scan's answer (`ClosestOf`: considered, inside the radius, none closer, every earlier considered one strictly farther) |
| EvoV2.Agent.ClosestOfExists | evo_with_gemini_v2.py:426-438 | whenever some considered candidate lies inside the radius, some candidate is the scan's answer |
| EvoV2.Agent.ClosestOfKept | evo_with_gemini_v2.py:433-436 | a later candidate that is not strictly closer leaves the answer unchanged |
| EvoV2.Agent.ClosestOfOvertaken | evo_with_gemini_v2.py:433-436 | a later considered candidate strictly closer than the answer becomes the answer |
| EvoV2.Agent.ClosestOfFirst | evo_with_gemini_v2.py:433-436 | the first considered candidate inside the radius is the answer of the list that ends with it |
| EvoV2.Agent.PickClosest | evo_with_gemini_v2.py:426-438 | `find_closest_agent` answers the one candidate that is `ClosestOf` the list, and null only when no considered candidate is inside the radius |
| EvoV2.Agent.Court | evo_with_gemini_v2.py:352-369 | the scan runs over the free ready candidates before any pairing changes; the creature pairs exactly when the candidate that is `ClosestOf` them (the scan's answer) is unpartnered or targets this creature, and then with that candidate; the partner was ready, is inside the sense radius and points back; no other creature is paired with anyone else |
| EvoV2.Agent.Propose | evo_with_gemini_v2.py:360-369 | a scanned candidate that is unpartnered or targets this creature is paired with it both ways and targeted; otherwise there is no partner and no target |
| EvoV2.Agent.Forage | evo_with_gemini_v2.py:372-392 | a target pellet still present and touched is eaten (energy and removal list as in Eat) and dropped; otherwise nothing is eaten; a remaining target is present and inside the sense radius; without a present target, a new one is found exactly when some pellet lies inside the sense radius, and it is the first closest one (`ClosestFoodOf`) |
| EvoV2.Agent.UpdateCreature | evo_with_gemini_v2.py:303-424 | age follows the life-cycle step; the creature is dead exactly when it expired or crashed; a crash leaves it in place overlapping an obstacle; only foraging lists food and only courting queues children |
| EvoV2.Agent.Live | evo_with_gemini_v2.py:315-424 | a living creature flees, courts or forages; a non-zero heading keeps it inside the arena, a zero one leaves it in place; fleeing costs the boosted speed and cost factor |
| EvoV2.Agent.Steer | evo_with_gemini_v2.py:315-392 | flight clears every target; energy and the food list change only when foraging; children are queued only when courting, and courting needs readiness |
| EvoV2.Agent.Stalk | evo_with_gemini_v2.py:504-534 | the new target, if any, is a living creature inside the sense radius, and a changed target is the first closest living creature (`ClosestOf` the creature list, whose scan skips the dead); the predator ends without a target only when no living creature lies inside the sense radius; biting the old target kills it, feeds the predator and lists it once; no other creature dies |
| EvoV2.Agent.Retarget | evo_with_gemini_v2.py:523-534 | after a lost target, the first closest living creature inside the sense radius becomes the target, and none is taken exactly when no living creature lies inside it |
| EvoV2.Agent.PickPrey | evo_with_gemini_v2.py:524-527 | the scan over the living creatures answers a living listed creature that is `ClosestOf` them and, equivalently, `ClosestOf` the whole creature list, or null when no living creature is inside the sense radius |
| EvoV2.Agent.ClosestOfSnoc | evo_with_gemini_v2.py:431-437 | the scan's answer over a list with one more candidate is the old answer unless that candidate is considered, inside the radius and strictly closer than every earlier one, in which case it is that candidate (both directions) |
| EvoV2.Agent.ClosestOfLiving | evo_with_gemini_v2.py:524-527 | filtering out the dead before the scan changes nothing: a creature is `ClosestOf` the living list exactly when it is `ClosestOf` the whole list |
| EvoV2.Agent.Chase | evo_with_gemini_v2.py:504-521 | a kept target is unchanged, alive and inside the sense radius; a bite kills the target, feeds the predator and lists it once; no other creature dies |
| EvoV2.Agent.UpdatePredator | evo_with_gemini_v2.py:494-572 | age follows the life-cycle step; a predator that expires hunts and breeds nothing; a ready predator below the cap breeds and goes on cooldown; every creature it kills is listed |
| EvoV2.Agent.Prowl | evo_with_gemini_v2.py:504-572 | a ready predator below the cap breeds and goes on cooldown, its child's genes being its own mutated; otherwise its readiness and cooldown are unchanged and nothing is queued |
| EvoV2.Agent.Reproduce | evo_with_gemini_v2.py:567-572 | a ready predator below the cap pays the reproduction cost and goes on cooldown; a child with its mutated genes is queued when the queue is below the cap too; otherwise nothing changes |
| EvoV2.Living | evo_with_gemini_v2.py:427-438 | exactly the agents of the list that are alive |
| EvoV2.World.RequestReproduction | evo_with_gemini_v2.py:616-633 | a child is created exactly when population plus queued births is below the cap; it is one generation after the parent, with mutated genes and a clamped jittered position, appended to its kind's queue, and raises that kind's generation record |
| EvoV2.World.constructor | evo_with_gemini_v2.py:600-613 | empty populations, food and buffers, nothing selected, not paused, time zero |
| EvoV2.World.UpdateCreatures | evo_with_gemini_v2.py:947-950 | after the creature loop every dead creature is listed for removal and no predator is queued |
| EvoV2.World.UpdatePredators | evo_with_gemini_v2.py:953-956 | after the predator loop every dead predator and every dead creature is listed for removal and no creature is queued |
| EvoV2.World.ListDeadCreature | evo_with_gemini_v2.py:949-950 | a dead creature not yet listed is appended to the removal list |
| EvoV2.World.ListDeadPredator | evo_with_gemini_v2.py:955-956 | a dead predator not yet listed is appended to the removal list |
| EvoV2.World.CullPopulation | evo_with_gemini_v2.py:973-983 | the kept and dropped agents are those of the energy cull |
| EvoV2.World.Commit | evo_with_gemini_v2.py:958-983 | food loses the eaten pellets; each population loses its listed agents, gains its newborns and is culled to its cap; the selection is cleared when the selected agent is removed or culled |
| EvoV2.World.SettleLists | evo_with_gemini_v2.py:958-983 | computes the committed food and populations, each duplicate-free and of the right kind, and the agents each cap drops |
| EvoV2.World.SettleSelection | evo_with_gemini_v2.py:961-981 | the selection is cleared exactly when its agent is listed for removal or dropped by a cap |
| EvoV2.World.Pruned | evo_with_gemini_v2.py:958-970 | the lists after removal and extension: unlisted survivors followed by newborns, duplicate-free and of the right kind |
| EvoV2.World.Tick | evo_with_gemini_v2.py:935-991 | a paused tick changes no population, food or time; otherwise time advances by dt, each population stays within its cap (or is unchanged), and every agent left is alive and was there before or was born this tick |
| EvoV2.World.UpdateAgents | evo_with_gemini_v2.py:946-956 | the populations are unchanged as lists, every dead agent is listed, and every queued child is new and alive |
| EvoV2.World.Conclude | evo_with_gemini_v2.py:958-991 | after the commit and regrowth each population is within its cap and holds only living agents that were there or were queued |
| EvoV2.World.ClearBuffers | evo_with_gemini_v2.py:935-940 | all five change lists are empty |
| EvoV2.World.ReplenishFood | evo_with_gemini_v2.py:988-991 | with less than half the food count and a draw below 0.05, ten new pellets are appended at the given spots; otherwise food is unchanged |
| EvoV2.SettledMembers | evo_with_gemini_v2.py:958-983 | every agent after the commit was an unlisted survivor or a newborn, and the population is within its cap |
| EvoV2.Deselected | evo_with_gemini_v2.py:979-982 | the selection is cleared exactly when the selected agent is among the dropped ones |
| EvoV2.Keyed | evo_with_gemini_v2.py:976 | the keyed list lists the same agents in the same order |
| EvoV2.CullAgents | evo_with_gemini_v2.py:973-983 | a population within its cap is kept; a larger one is cut to the cap; only its own agents are kept |
| EvoV2.CullMembers | evo_with_gemini_v2.py:973-983 | the cull keeps only agents of the population |
| EvoV2.CullSplit | evo_with_gemini_v2.py:976-983 | the kept agents are the tail and the dropped ones the head (`del pop_list[:n]`) of the energy-sorted list |
| EvoV2.CullCovers | evo_with_gemini_v2.py:973-983 | every agent is kept or dropped, and dropped agents come from the population |
| EvoV2.CullKeepsFittest | evo_with_gemini_v2.py:976-983 | no dropped agent has more energy than a kept one |
| EvoV2.CullDistinct | evo_with_gemini_v2.py:973-983 | culling a duplicate-free population keeps and drops duplicate-free lists |
| EvoWeb.CrossoverGenes | web_version/script.js:242-248 | the child always gets the second parent's genes, since `random() < 0.5` compares NaN |
| EvoWeb.MutatedTrait | web_version/script.js:613-620 | a trait is never mutated, since `random() < rate` compares NaN |
| EvoWeb.JitterOffset | web_version/script.js:622 | `random(-5, 5)` is an integer in [-5, 5] |
| EvoWeb.Food.constructor | web_version/script.js:252-262 | a pellet at the given spot with radius 3 |
| EvoWeb.Agent.constructor | web_version/script.js:324-343 | an agent of the given kind, position, genes and generation, alive, untargeted, not ready to mate |
| EvoWeb.Agent.UpdateBasicState | web_version/script.js:360-379 | the vital signs become `Lifecycle.Step` of the old ones and the result says whether the agent is dead |
| EvoWeb.Agent.CheckObstacleCollision | web_version/script.js:381-390 | a dead agent reports no hit; a living one dies and reports a hit exactly when some obstacle collides with its circle |
| EvoWeb.Agent.ApplyMovement | web_version/script.js:392-405 | a dead agent or zero direction changes nothing; otherwise the agent moves, is clamped into the arena and pays the move cost |
| EvoWeb.Agent.FindClosestAgent | web_version/script.js:408-424 | the first strictly closest candidate passing the filter and strictly inside the radius, or none when there is none |
| EvoWeb.Agent.FindClosestFood | web_version/script.js:719-726 | the first strictly closest pellet strictly inside the sense radius, or none |
| EvoWeb.Agent.CreateOffspring | web_version/script.js:610-624 | the child has the parent's kind, the given genes, the next generation, and an unclamped position within 5 of the parent on each axis |
| EvoWeb.Agent.Eat | web_version/script.js:778-789 | a living creature gains the food energy, lists the pellet once and drops it as target; a dead one changes nothing |
| EvoWeb.Agent.Hunt | web_version/script.js:923-936 | a living predator marks unmarked prey with `is_dead` (not `isDead`), gains the hunt energy, lists the prey once and drops it as target; otherwise nothing changes |
| EvoWeb.Agent.AvoidWalls | web_version/script.js:558-580 | near a wall (within radius + 1) every target and the pairing are cleared; elsewhere they are kept |
| EvoWeb.Agent.Evade | web_version/script.js:647-655 | the creature flees exactly when some living predator is strictly inside its sense radius, and then drops food, partner and pairing |
| EvoWeb.Agent.SeekMate | web_version/script.js:658-684 | a ready unmarked partner in mating range completes the mating; between mating range and sense radius the pair approaches; beyond both the pairing is dropped; a child is queued only on a coin below 0.5 |
| EvoWeb.Agent.Mate | web_version/script.js:660-677 | both partners are unpaired, unready and on cooldown; on a coin below 0.5 one child with the partner's genes is queued with no cap check and the generation record rises; otherwise nothing is queued |
| EvoWeb.Agent.Court | web_version/script.js:685-703 | pairing happens exactly when some free ready creature is inside the sense radius; the partner chosen is a closest one and points back; no other creature's pairing changes except to this one |
| EvoWeb.Agent.Forage | web_version/script.js:708-728 | a present touched target is eaten and dropped; otherwise nothing is eaten; without a present target, a new target is found exactly when some pellet lies inside the sense radius, and it is the first closest one (`ClosestFoodOf`) |
| EvoWeb.Agent.UpdateCreature | web_version/script.js:633-776 | age follows the life-cycle step; death exactly on expiry or crash; a crash leaves the creature in place colliding; only foraging lists food and only courting queues children |
| EvoWeb.Agent.Live | web_version/script.js:647-775 | a living creature flees, courts or forages; a non-zero heading keeps it in the arena; near a wall all targets are cleared |
| EvoWeb.Agent.Steer | web_version/script.js:647-728 | flight clears every target; energy and the food list change only when foraging; children are queued only when courting, which needs readiness |
| EvoWeb.Agent.Stalk | web_version/script.js:843-871 | the new target is an unmarked creature inside the sense radius, and a changed target is the first closest unmarked living creature (`ClosestOf`); the predator ends without a target only when no such creature lies inside the sense radius; a bite marks the old target, feeds the predator and lists it once; no other creature is marked |
| EvoWeb.Agent.Retarget | web_version/script.js:860-871 | after a lost target, the first closest unmarked living creature inside the sense radius becomes the target, and none is taken exactly when no such creature lies inside it |
| EvoWeb.Agent.NearestPrey | web_version/script.js:861-865 | the scan with the `is_dead` filter answers a listed unmarked creature that is `ClosestOf` the list, or null when no unmarked living creature lies inside the sense radius |
| EvoWeb.Agent.Chase | web_version/script.js:843-858 | a kept target is unchanged, unmarked and inside the sense radius; a bite marks it, feeds the predator and lists it once |
| EvoWeb.Agent.UpdatePredator | web_version/script.js:833-921 | age follows the life-cycle step; an expired predator hunts and breeds nothing; a ready predator below the cap breeds one child and goes on cooldown; every marked creature is listed |
| EvoWeb.Agent.Prowl | web_version/script.js:843-920 | a ready predator below the cap queues one child and goes on cooldown; otherwise readiness, cooldown and the queue are unchanged; near a wall the target is dropped |
| EvoWeb.Agent.Reproduce | web_version/script.js:912-920 | a ready predator below the cap pays the cost, goes on cooldown and queues a child with its own genes one generation on; otherwise nothing changes |
| EvoWeb.WallPush | web_version/script.js:558-580 | the push is non-zero exactly when the agent is within radius + 1 of a wall, and each component is in [-1, 1] |
| EvoWeb.World.constructor | web_version/script.js:949-966 | empty populations, food and buffers, nothing selected, not paused, time zero |
| EvoWeb.World.QueueCreature | web_version/script.js:667-668 | the child is appended to the creature queue and the creature generation record becomes the larger of the two |
| EvoWeb.World.QueuePredator | web_version/script.js:916-917 | the child is appended to the predator queue and the predator generation record becomes the larger of the two |
| EvoWeb.World.UpdateCreatures | web_version/script.js:1008-1010 | the creature loop only appends to the birth queues and queues no predator |
| EvoWeb.World.UpdatePredators | web_version/script.js:1014-1016 | after the predator loop every creature marked by a hunt is listed for removal |
| EvoWeb.World.ListDeadAgents | web_version/script.js:1022-1041 | each removal list gains, in order, the dead agents not yet listed |
| EvoWeb.World.Commit | web_version/script.js:1019-1068 | food loses the listed pellets; each population keeps its unlisted living agents, gains its newborns and is culled to its cap; the selection is cleared only when the cull drops it |
| EvoWeb.World.Settle | web_version/script.js:1019-1068 | computes the committed food, populations and selection, each duplicate-free and of the right kind |
| EvoWeb.World.SettleAgents | web_version/script.js:1027-1068 | computes both committed populations, duplicate-free and of the right kind, and the agents each cull drops |
| EvoWeb.World.SettleCreatures | web_version/script.js:1027-1068 | the committed creature list is the survivors and births culled to the creature cap, duplicate-free and all creatures, with the agents the cull drops |
| EvoWeb.World.SettlePredators | web_version/script.js:1027-1068 | the committed predator list is the survivors and births culled to the predator cap, duplicate-free and all predators, with the agents the cull drops |
| EvoWeb.World.SettlePopulation | web_version/script.js:1027-1063 | the filters, the `push` of the births and the cull give the settled population, duplicate-free, drawn from the old population and the births |
| EvoWeb.World.Conclude | web_version/script.js:1018-1076 | after the commit and regrowth each population is within its cap and holds only living agents that were there or were queued |
| EvoWeb.World.CommitMembers | web_version/script.js:1018-1068 | every agent after the commit is an unlisted living survivor or a newborn, within the cap |
| EvoWeb.World.ClearBuffers | web_version/script.js:1001-1005 | all five change lists are empty |
| EvoWeb.World.ReplenishFood | web_version/script.js:1072-1076 | below 70% of the food count five new pellets are appended at the given spots; otherwise food is unchanged |
| EvoWeb.World.UpdateAgents | web_version/script.js:1007-1016 | the populations are unchanged as lists, every marked creature is listed and every queued child is new |
| EvoWeb.World.UpdateWorld | web_version/script.js:1000-1076 | each population ends within its cap, holding only living agents that were there or are new |
| EvoWeb.World.Frame | web_version/script.js:1162-1178 | a paused frame changes nothing; otherwise time advances by dt and the world update's guarantees hold |
| EvoWeb.Listed | web_version/script.js:1022-1026 | the old removal list is a prefix of the new one |
| EvoWeb.ListedMembers | web_version/script.js:1022-1026 | an agent is listed exactly when it was listed before or is in the population and dead |
| EvoWeb.ListDead | web_version/script.js:1022-1026 | the `forEach` loop computes the listed agents |
| EvoWeb.Survivors | web_version/script.js:1027-1029 | exactly the agents of the population that are unlisted and alive |
| EvoWeb.SurvivorsUnlisted | web_version/script.js:1027-1029 | when every dead agent is listed, the second filter removes nothing |
| EvoWeb.ListedLeavesNoDead | web_version/script.js:1022-1029 | after the listing loop, the `isDead` filter is redundant |
| EvoWeb.SurvivorsDistinct | web_version/script.js:1027-1029 | filtering keeps a population duplicate-free |
| EvoWeb.SettledMembers | web_version/script.js:1027-1068 | every agent after the commit is an unlisted living survivor or a newborn, and the population is within its cap |
| EvoWeb.CullPopulation | web_version/script.js:1059-1068 | the kept and removed agents are those of the energy cull |
| EvoWeb.Ranked | web_version/script.js:1060 | the first components list exactly the population, in order |
| EvoWeb.RankedEntry | web_version/script.js:1060 | every ranked entry is an agent of the population paired with its own energy |
| EvoWeb.Capped | web_version/script.js:1059-1063 | a population within its cap is kept; a larger one is cut to exactly the cap |
| EvoWeb.CappedSplit | web_version/script.js:1060-1061 | the kept agents are the tail and the removed ones the head (`splice(0, n)`) of the energy-sorted list |
| EvoWeb.CappedMembers | web_version/script.js:1059-1063 | every agent is kept or removed, and both come from the population |
| EvoWeb.CappedKeepsFittest | web_version/script.js:1060-1061 | no removed agent has more energy than a kept one |
| EvoWeb.CappedDistinct | web_version/script.js:1059-1063 | culling a duplicate-free population keeps and removes duplicate-free lists |
| EvoV1.Uniform | evo_with_gemini.py:121-122 | `random.uniform(lo, hi)` with a draw in [0, 1) lies in [lo, hi] |
| EvoV1.FounderGenes | evo_with_gemini.py:120-122 | founder genes drawn uniformly lie within the kind's bounds |
| EvoV1.InheritTrait | evo_with_gemini.py:124-133 | the inherited trait always lies in [lo, hi]; without mutation it is the parent's trait clamped |
| EvoV1.InheritGenes | evo_with_gemini.py:124-133 | inherited genes are always in bounds; unmutated in-bounds traits are kept |
| EvoV1.InheritMatchesMutate | evo_with_gemini.py:127-133 | for an in-bounds trait, v1's mutate-then-clamp agrees with the later version's clamp-only-when-mutated |
| EvoV1.InheritClampsUnmutated | evo_with_gemini.py:124-133 | an out-of-bounds parent trait is clamped even without mutation, where the later version keeps it |
| EvoV1.SpawnPos | evo_with_gemini.py:107-110 | an offspring position is always inside the arena |
| EvoV1.SpawnNearParent | evo_with_gemini.py:108-110 | for a parent inside the arena the child lies within 10 of it on each axis |
| EvoV1.InitialWander | evo_with_gemini.py:140 | the initial wander direction is either the drawn heading or (1, 0), and it has unit length whenever the drawn heading has |
| EvoV1.Food.constructor | evo_with_gemini.py:65-78 | a pellet at the given spot |
| EvoV1.Agent.Founder | evo_with_gemini.py:95-142 | a generation-0 agent at the given spot with uniformly drawn genes and its initial wander direction |
| EvoV1.Agent.Offspring | evo_with_gemini.py:107-133 | a child one generation on, with inherited genes, a jittered clamped position, and the kind's generation record raised |
| EvoV1.Agent.HitsObstacle | evo_with_gemini.py:190-191 | true exactly when the agent's rectangle overlaps some obstacle |
| EvoV1.Agent.FindClosestFood | evo_with_gemini.py:144-153 | the first strictly closest pellet strictly inside the sense radius, or none |
| EvoV1.Agent.FindClosestPrey | evo_with_gemini.py:275-287 | the first strictly closest living creature strictly inside the sense radius, or none |
| EvoV1.Agent.MoveCreature | evo_with_gemini.py:155-182 | a present target is approached, or dropped when touched; without one the creature wanders, turning with probability 0.05; it moves, stays in the arena and pays the move cost only when moving |
| EvoV1.Agent.MovePredator | evo_with_gemini.py:289-316 | a living present target is chased; without one the predator wanders; it moves, stays in the arena and pays the move cost only when moving |
| EvoV1.Agent.Update | evo_with_gemini.py:184-208 | a dead agent changes nothing; a living one ages by dt, dies of age or a crash, otherwise moves and decays, dies of hunger, and spawns exactly when fed past the threshold with its population below the cap, paying the cost; the child inherits genes and a position near the parent |
| EvoV1.Agent.Travel | evo_with_gemini.py:193-196 | after the target choice (`Seek`) the agent moves, stays in the arena and pays the move cost or nothing |
| EvoV1.Agent.Seek | evo_with_gemini.py:193-194 | (with lines 329-330 for predators) a creature without a target takes the first closest pellet inside its sense radius (`ClosestFoodOf`), a predator without a living target the first closest living creature (`ClosestPreyOf`); nothing is taken exactly when nothing lies inside; a target already held is kept and the other kind's target is untouched |
| EvoV1.Agent.SeekFood | evo_with_gemini.py:193-194 | a held target is kept; otherwise the target becomes the first closest pellet inside the sense radius, or none when no pellet lies inside |
| EvoV1.Agent.SeekPrey | evo_with_gemini.py:329-330 | a living held target is kept; otherwise the target becomes the first closest living creature inside the sense radius, or none when no living creature lies inside |
| EvoV1.Agent.TakePrey | evo_with_gemini.py:330 | the target becomes `ClosestPreyOf` the creature list, or none when no living creature lies inside the sense radius |
| EvoV1.Agent.PickPrey | evo_with_gemini.py:275-287 | `find_closest_prey` answers a creature that is `ClosestPreyOf` the list, or null when no living creature lies inside the sense radius |
| EvoV1.Agent.Eat | evo_with_gemini.py:210-214 | a living creature gains the food energy and drops the pellet as target |
| EvoV1.Agent.Hunt | evo_with_gemini.py:345-352 | a living predator kills living prey, gains the hunt energy and drops it as target; otherwise nothing changes |
| EvoV1.CloseCirclesOverlap | evo_with_gemini.py:443-455 | two agents closer than the sum of their radii have overlapping rectangles |
| EvoV1.World.constructor | evo_with_gemini.py:376-383 | empty populations and food, generation records zero, nothing selected, not paused |
| EvoV1.World.AddFounder | evo_with_gemini.py:400-404 | a founder is appended exactly when its population is below the cap; otherwise nothing changes |
| EvoV1.World.UpdateCreatures | evo_with_gemini.py:429-433 | the removed list is exactly the creatures that died this pass, without duplicates; births are new creatures, none at or above the cap, and the generation record only grows |
| EvoV1.World.UpdatePredators | evo_with_gemini.py:436-440 | the removed list is exactly the predators that died this pass; births are new predators, none at or above the cap |
| EvoV1.World.PredatorTurn | evo_with_gemini.py:443-455 | a living predator kills the first living creature it touches, gains the hunt energy and lists it; with no victim nothing changes and no living creature is within reach |
| EvoV1.World.HuntingPass | evo_with_gemini.py:443-455 | the listed creatures are the earlier ones plus those killed; every predator gained the hunt energy at most once, and one that gained nothing touches no living creature |
| EvoV1.World.CreatureTurn | evo_with_gemini.py:458-470 | a creature eats the first uneaten pellet it reaches, gains the food energy and, while eaten-adjusted food is below 1.5 × the food count, a new pellet is appended at the given spot |
| EvoV1.World.EatingPass | evo_with_gemini.py:458-470 | every creature gained the food energy at most once and only if alive and not just killed; one that gained nothing reaches no uneaten pellet; food only grows at the end during the pass |
| EvoV1.World.Commit | evo_with_gemini.py:474-497 | food loses the eaten pellets; each population loses its listed agents, gains its births and is culled to its cap; the selection follows |
| EvoV1.World.Settle | evo_with_gemini.py:474-497 | computes the committed food, populations and selection, each duplicate-free and of the right kind |
| EvoV1.World.SettleAgents | evo_with_gemini.py:474-497 | computes both committed populations and the agents the cull drops |
| EvoV1.World.Regrow | evo_with_gemini.py:501-502 | with less than half the food count and a draw below the chance, a batch of pellets is appended at the given spots; otherwise food is unchanged |
| EvoV1.World.Tick | evo_with_gemini.py:421-502 | afterwards both populations are within their caps and hold only living agents that were there before or are new; a paused tick changes no population or food; the generation records only grow; the selection is kept or cleared |
| EvoV1.World.Conclude | evo_with_gemini.py:474-502 | every agent after the commit is alive and was an unlisted survivor or a birth, both populations are within their caps, and the selection is kept or cleared |
| EvoV1.World.SettlePopulation | evo_with_gemini.py:474-497 | removal, extension and cull give the settled population, duplicate-free, from the old population and the births |
| EvoV1.JoinedDistinct | evo_with_gemini.py:474-485 | survivors followed by births are duplicate-free |
| EvoV1.SettledMembers | evo_with_gemini.py:474-497 | every agent after the commit was an unlisted survivor or a birth, every unlisted survivor is kept or culled, and the population is within its cap |
| EvoV1.Keyed | evo_with_gemini.py:490 | the keyed list lists the same agents in the same order |
| EvoV1.CullAgents | evo_with_gemini.py:488-497 | a population within its cap is kept; a larger one is cut to the cap; only its own agents are kept |
| EvoV1.CulledAgents | evo_with_gemini.py:488-497 | the dropped agents come from the population, and every agent is kept or dropped |
| EvoV1.CullPopulation | evo_with_gemini.py:488-497 | the kept and dropped agents are those of the energy cull |
| EvoV1.CullKeepsFittest | evo_with_gemini.py:490-497 | no dropped agent has more energy than a kept one |
| EvoV1.CullDistinct | evo_with_gemini.py:488-497 | culling a duplicate-free population keeps and drops duplicate-free lists |

## Left out

- Square roots and normalisation: movement headings (normalised steering, evasion, separation and wander vectors) are inputs to each tick; the model keeps only whether a heading is zero. `WebVectors.Vec2.Normalize` takes the length as an argument.
- Randomness: every draw (`random.random`, `random.uniform`, `Math.random`) is a parameter; properties about a draw assume it lies in [0, 1).
- The frame clock: `dt` is a parameter; the clamp of each frame's time into [0.005, 0.1] seconds (`clamp(dt, 0.005, 0.1)`) is not modelled.
- Separation forces and the wander/steering blend of each update are not computed; their result is the heading input.
- Placement loops for founders and pellets (retry until clear of obstacles) and obstacle generation: positions are parameters.
- Drawing, colours, the user interface, key handling other than adding founders in v1, click selection, statistics, logging, plotting, and saving or loading.
- pygame `Rect` stores integer coordinates; the model uses the real-valued box around the agent.
- Floating point: numbers are reals, so rounding, infinities and NaN (other than the NaN of the web port's `random()`) are not modelled.
- Python `id()` is replaced by a serial number assigned by the world; only its order matters.
- v1 population removal is modelled by the `Lists.Without` function rather than a step-by-step loop; food removal is the `Lists.RemoveListed` loop.
- The web port's `map`, `lerp`, `colorToCSS` and `randomFloat` serve drawing and founders only and are not modelled.
