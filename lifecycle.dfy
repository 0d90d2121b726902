/** The per-tick bookkeeping every agent does before it acts (`update_basic_state`
    in the Python version, `updateBasicState` in the web port, which agree):
    ageing, energy decay, the mating cooldown and readiness, and death from
    starvation or old age. It is stated on a value holding exactly the fields
    the step reads and writes; the agent classes are proved to follow it. */
module Lifecycle {

  datatype Vitals = Vitals(age: real, energy: real, cooldown: real, ready: bool, dead: bool)

  /** The per-kind constants the step reads through the agent's getters. */
  datatype KindRates = KindRates(decay: real, readyThreshold: real, maxAge: real)

  /** One step of `dt` seconds. A dead agent is left as it is. Otherwise age
      grows by dt and energy falls by decay * dt; a running cooldown counts
      down and keeps the agent unready, an expired one makes it ready exactly
      when its energy reaches the threshold; the agent dies when its energy is
      used up or its age reaches the limit. */
  function Step(v: Vitals, k: KindRates, dt: real): (w: Vitals)
    ensures v.dead ==> w == v
    ensures !v.dead ==> w.age == v.age + dt && w.energy == v.energy - k.decay * dt
    ensures !v.dead ==> (w.dead <==> w.energy <= 0.0 || w.age >= k.maxAge)
    ensures !v.dead && w.ready ==> v.cooldown <= 0.0 && w.energy >= k.readyThreshold
    ensures !v.dead && v.cooldown <= 0.0 ==> (w.ready <==> w.energy >= k.readyThreshold)
    ensures !v.dead && v.cooldown > 0.0 ==> !w.ready && w.cooldown + dt == v.cooldown
    ensures v.cooldown <= 0.0 ==> w.cooldown == v.cooldown
  {
    if v.dead then v
    else
      var age := v.age + dt;
      var energy := v.energy - k.decay * dt;
      var cooldown := if v.cooldown > 0.0 then v.cooldown - dt else v.cooldown;
      var ready := v.cooldown <= 0.0 && energy >= k.readyThreshold;
      Vitals(age, energy, cooldown, ready, energy <= 0.0 || age >= k.maxAge)
  }

  /** Steps through the given frame times in order. */
  function Run(v: Vitals, k: KindRates, dts: seq<real>): Vitals
    decreases |dts|
  {
    if dts == [] then v else Run(Step(v, k, dts[0]), k, dts[1..])
  }

  function Sum(dts: seq<real>): real {
    if dts == [] then 0.0 else dts[0] + Sum(dts[1..])
  }

  /** Death is final: no later step changes a dead agent. */
  lemma {:induction false} DeadStaysDead(v: Vitals, k: KindRates, dts: seq<real>)
    requires v.dead
    ensures Run(v, k, dts) == v
    decreases |dts|
  {
    if dts != [] {
      DeadStaysDead(Step(v, k, dts[0]), k, dts[1..]);
    }
  }

  /** An agent that is still alive after at least one step has energy left and
      is younger than its kind's age limit. */
  lemma {:induction false} AliveMeansFed(v: Vitals, k: KindRates, dts: seq<real>)
    requires dts != []
    requires !Run(v, k, dts).dead
    ensures Run(v, k, dts).energy > 0.0 && Run(v, k, dts).age < k.maxAge
    decreases |dts|
  {
    var w := Step(v, k, dts[0]);
    if w.dead {
      DeadStaysDead(w, k, dts[1..]);
    } else if dts[1..] != [] {
      AliveMeansFed(w, k, dts[1..]);
    }
  }

  /** While an agent lives, its age is its starting age plus the elapsed time. */
  lemma {:induction false} AgeIsElapsedTime(v: Vitals, k: KindRates, dts: seq<real>)
    requires !Run(v, k, dts).dead
    ensures Run(v, k, dts).age == v.age + Sum(dts)
    decreases |dts|
  {
    if dts != [] {
      var w := Step(v, k, dts[0]);
      if w.dead {
        DeadStaysDead(w, k, dts[1..]);
      } else {
        AgeIsElapsedTime(w, k, dts[1..]);
      }
    }
  }

  /** With non-negative frame times an agent's age never decreases. */
  lemma {:induction false} AgeMonotone(v: Vitals, k: KindRates, dts: seq<real>)
    requires forall i :: 0 <= i < |dts| ==> dts[i] >= 0.0
    ensures Run(v, k, dts).age >= v.age
    decreases |dts|
  {
    if dts != [] {
      AgeMonotone(Step(v, k, dts[0]), k, dts[1..]);
    }
  }

  /** Each step without a death costs at least decay * dt of energy, so
      energy alone (without eating or mating) never grows while alive. */
  lemma {:induction false} EnergyNeverGrows(v: Vitals, k: KindRates, dts: seq<real>)
    requires k.decay >= 0.0
    requires forall i :: 0 <= i < |dts| ==> dts[i] >= 0.0
    ensures Run(v, k, dts).energy <= v.energy
    decreases |dts|
  {
    if dts != [] {
      var d := dts[0];
      var w := Step(v, k, d);
      assert w.energy <= v.energy by {
        assert k.decay * d >= 0.0;
      }
      assert forall i :: 0 <= i < |dts[1..]| ==> dts[1..][i] >= 0.0 by {
        forall i | 0 <= i < |dts[1..]| ensures dts[1..][i] >= 0.0 {
          assert dts[1..][i] == dts[i + 1];
        }
      }
      EnergyNeverGrows(w, k, dts[1..]);
    }
  }
}
