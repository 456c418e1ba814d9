/**
  The snowfall application's engine: `EmitterSnow`, which scatters new particles
  over a box around its position, and a `ParticleSystem` whose update removes
  dead particles with an erase-while-iterating loop.
 */
module AnimacjaSwiateczna {
  import opened Vectors
  import opened Particles
  import opened Randomness
  import Emission

  class EmitterSnow {
    /** Centre of the emission box. */
    const position: Vec3
    /** Half-extent of the emission box on each axis. */
    const emissionRange: Vec3
    /** Bound on each velocity component: it is drawn from `[-v, v]`. */
    const velocityRange: Vec3
    const color: Color
    const lifetime: real
    /** Particles per second. */
    const emissionRate: real
    /** The fractional-time accumulator. */
    var timeSinceLastEmit: real
    const mass: real

    /**
      What the constructor's callers must supply: a non-zero rate, so that
      `numToEmit / emissionRate` is defined, and a non-zero mass, so that
      `force / mass` is. A negative rate is allowed: from a non-negative
      accumulator with non-negative frame times it emits nothing, while a
      negative `dt` can make it emit.
     */
    ghost predicate Valid() {
      emissionRate != 0.0 && mass != 0.0
    }

    /** The accumulator holds less than one emission period. */
    ghost predicate AccumulatorBounded()
      reads this`timeSinceLastEmit
      requires Valid()
    {
      0.0 <= timeSinceLastEmit < 1.0 / emissionRate
    }

    /** A particle as `emit` creates it: age 0, the emitter's colour, lifetime and mass, inside the sampling boxes. */
    ghost predicate Spawned(p: Particle)
      reads p
    {
      && p.age == 0.0
      && p.color == color && p.lifetime == lifetime && p.mass == mass
      && InRange(p.position, position, emissionRange)
      && InRange(p.velocity, Vec3(0.0, 0.0, 0.0), velocityRange)
    }

    constructor (pos: Vec3, emitRange: Vec3, velRange: Vec3, col: Color, life: real, rate: real, m: real)
      requires rate != 0.0 && m != 0.0
      ensures Valid() && (emissionRate > 0.0 ==> AccumulatorBounded())
      ensures position == pos && emissionRange == emitRange && velocityRange == velRange
      ensures color == col && lifetime == life && emissionRate == rate && mass == m
      ensures timeSinceLastEmit == 0.0
    {
      position, emissionRange, velocityRange := pos, emitRange, velRange;
      color, lifetime, emissionRate, mass := col, life, rate, m;
      timeSinceLastEmit := 0.0;
    }

    /**
      `emit(dt)`: advance the accumulator by `dt` and produce as many new
      particles as whole emission periods it holds. The accumulator keeps the
      unused fraction. With a positive rate it stays below one period whenever
      it is non-negative once `dt` is added. With a negative rate and an
      accumulator that is non-negative once `dt` is added, nothing is emitted;
      a negative `dt` can make such an emitter emit.
     */
    method Emit(dt: real, rng: Random) returns (batch: seq<Particle>)
      requires Valid() && rng.Valid()
      modifies this`timeSinceLastEmit, rng`draws
      ensures timeSinceLastEmit == Emission.Carry(old(timeSinceLastEmit) + dt, emissionRate)
      ensures |batch| == Emission.BatchSize(Emission.Count(old(timeSinceLastEmit) + dt, emissionRate))
      ensures old(timeSinceLastEmit) + dt >= 0.0 && emissionRate > 0.0 ==>
                AccumulatorBounded() && Emission.WholePeriods(|batch|, old(timeSinceLastEmit) + dt, emissionRate)
      ensures old(timeSinceLastEmit) + dt >= 0.0 && emissionRate < 0.0 ==>
                batch == [] && 0.0 <= timeSinceLastEmit <= old(timeSinceLastEmit) + dt
      ensures Distinct(batch)
      ensures forall k :: 0 <= k < |batch| ==> fresh(batch[k]) && Spawned(batch[k])
    {
      batch := [];
      timeSinceLastEmit := timeSinceLastEmit + dt;
      ghost var t := timeSinceLastEmit;
      var numToEmit := Emission.Trunc(timeSinceLastEmit * emissionRate);
      assert numToEmit == Emission.Count(t, emissionRate);
      timeSinceLastEmit := timeSinceLastEmit - numToEmit as real / emissionRate;
      if t >= 0.0 && emissionRate > 0.0 {
        Emission.CarryBounded(t, emissionRate);
      } else if t >= 0.0 {
        Emission.NegativeRateSilent(t, emissionRate);
      }

      var i := 0;
      while i < numToEmit
        invariant 0 <= i == |batch| <= Emission.BatchSize(numToEmit)
        invariant timeSinceLastEmit == Emission.Carry(t, emissionRate)
        invariant Distinct(batch)
        invariant forall k :: 0 <= k < |batch| ==> fresh(batch[k]) && Spawned(batch[k])
      {
        var p := Spawn(rng);
        batch := batch + [p];
        i := i + 1;
      }
    }

    /**
      One pass of the loop in `emit`: draw a position in the emission box and
      a velocity in the velocity box, three `ofRandom` calls each, and build
      the particle from them and the emitter's attributes.
     */
    method Spawn(rng: Random) returns (p: Particle)
      requires rng.Valid()
      modifies rng`draws
      ensures fresh(p) && Spawned(p)
      ensures rng.draws == old(rng.draws) + 6
    {
      var x := rng.Uniform(position.x - emissionRange.x, position.x + emissionRange.x);
      var y := rng.Uniform(position.y - emissionRange.y, position.y + emissionRange.y);
      var z := rng.Uniform(position.z - emissionRange.z, position.z + emissionRange.z);
      var vx := rng.Uniform(-velocityRange.x, velocityRange.x);
      var vy := rng.Uniform(-velocityRange.y, velocityRange.y);
      var vz := rng.Uniform(-velocityRange.z, velocityRange.z);
      p := new Particle(Vec3(x, y, z), Vec3(vx, vy, vz), color, lifetime, mass);
    }
  }

  class ParticleSystem {
    var particles: seq<Particle>
    const emitter: EmitterSnow

    ghost predicate Valid()
      reads this
    {
      emitter.Valid() && Distinct(particles) && Massive(particles)
    }

    /** `ParticleSystem(em)`: no particles yet, and a private copy of the given emitter. */
    constructor (em: EmitterSnow)
      requires em.Valid()
      ensures Valid() && particles == [] && fresh(emitter)
      ensures emitter.position == em.position && emitter.emissionRange == em.emissionRange
      ensures emitter.velocityRange == em.velocityRange && emitter.color == em.color
      ensures emitter.lifetime == em.lifetime && emitter.emissionRate == em.emissionRate
      ensures emitter.mass == em.mass && emitter.timeSinceLastEmit == em.timeSinceLastEmit
    {
      var copy := new EmitterSnow(em.position, em.emissionRange, em.velocityRange, em.color,
                                  em.lifetime, em.emissionRate, em.mass);
      copy.timeSinceLastEmit := em.timeSinceLastEmit;
      emitter := copy;
      particles := [];
    }

    /**
      `applyForce`: every particle receives the force through `Particle::applyForce`.
      The collection keeps its length and order. Positions and ages are untouched,
      so no particle changes between dead and alive.
     */
    method ApplyForce(force: Vec3)
      requires Valid()
      modifies particles
      ensures Valid() && particles == old(particles)
      ensures forall k :: 0 <= k < |particles| ==>
                particles[k].velocity == old(particles[k].velocity).Plus(force.Div(particles[k].mass))
      ensures forall k :: 0 <= k < |particles| ==>
                particles[k].position == old(particles[k].position) && particles[k].age == old(particles[k].age)
      ensures old(NoneDead(particles)) ==> NoneDead(particles)
    {
      ApplyForceEach(particles, force);
    }

    /**
      A particle emitted during this frame's update and then advanced once by
      `dt`: it carries the emitter's attributes, has age `dt`, and its position
      one step back lies in the emission box.
     */
    ghost predicate SpawnedAndAdvanced(p: Particle, dt: real)
      reads p
    {
      && p.age == dt
      && p.color == emitter.color && p.lifetime == emitter.lifetime && p.mass == emitter.mass
      && InRange(p.velocity, Vec3(0.0, 0.0, 0.0), emitter.velocityRange)
      && InRange(p.position.Minus(p.velocity.Scale(dt)), emitter.position, emitter.emissionRange)
    }

    /**
      `update(dt)`: append the emitter's new batch, advance every particle
      (including the new ones) by `dt`, then drop the dead ones. The result is
      the stable filter `not isDead` over the advanced `old ++ batch`, so no
      dead particle remains and no live one is lost, duplicated or reordered.
     */
    method Update(dt: real, rng: Random) returns (ghost emitted: seq<Particle>)
      requires Valid() && rng.Valid()
      modifies this, emitter, rng, particles
      ensures Valid() && NoneDead(particles)
      ensures emitter.timeSinceLastEmit ==
                Emission.Carry(old(emitter.timeSinceLastEmit) + dt, emitter.emissionRate)
      ensures |emitted| ==
                Emission.BatchSize(Emission.Count(old(emitter.timeSinceLastEmit) + dt, emitter.emissionRate))
      ensures old(emitter.timeSinceLastEmit) + dt >= 0.0 && emitter.emissionRate > 0.0 ==>
                emitter.AccumulatorBounded()
      ensures old(emitter.timeSinceLastEmit) + dt >= 0.0 && emitter.emissionRate < 0.0 ==>
                emitted == [] && 0.0 <= emitter.timeSinceLastEmit <= old(emitter.timeSinceLastEmit) + dt
      ensures particles == Alive(old(particles) + emitted)
      ensures forall k :: 0 <= k < |old(particles)| ==>
                && old(particles)[k].position == old(particles[k].position).Plus(old(particles[k].velocity).Scale(dt))
                && old(particles)[k].velocity == old(particles[k].velocity)
                && old(particles)[k].age == old(particles[k].age) + dt
      ensures forall k :: 0 <= k < |emitted| ==> fresh(emitted[k]) && SpawnedAndAdvanced(emitted[k], dt)
    {
      emitted := AppendEmitted(dt, rng);
      ghost var before := old(particles);
      ghost var all := particles;
      AdvanceAndCompact(dt, emitted);
      forall k | 0 <= k < |before|
        ensures && before[k].position == old(before[k].position).Plus(old(before[k].velocity).Scale(dt))
                && before[k].velocity == old(before[k].velocity)
                && before[k].age == old(before[k].age) + dt
      {
        assert all[k] == before[k];
      }
    }

    /**
      The rest of `update`: advance every particle by `dt`, then remove the
      dead ones, keeping the others in order. `batch` names the particles the
      emitter has just appended at the end of the vector. Each of them is
      advanced once from its spawn state.
     */
    method AdvanceAndCompact(dt: real, ghost batch: seq<Particle>)
      requires Valid()
      requires |batch| <= |particles| && particles[|particles| - |batch|..] == batch
      requires forall k :: 0 <= k < |batch| ==> emitter.Spawned(batch[k])
      modifies this`particles, particles
      ensures Valid() && NoneDead(particles)
      ensures particles == Alive(old(particles))
      ensures forall k :: 0 <= k < |old(particles)| ==>
                && old(particles)[k].position == old(particles[k].position).Plus(old(particles[k].velocity).Scale(dt))
                && old(particles)[k].velocity == old(particles[k].velocity)
                && old(particles)[k].age == old(particles[k].age) + dt
      ensures forall k :: 0 <= k < |batch| ==> SpawnedAndAdvanced(batch[k], dt)
    {
      ghost var start := |particles| - |batch|;
      UpdateEach(particles, dt);
      forall k | 0 <= k < |batch|
        ensures SpawnedAndAdvanced(batch[k], dt)
      {
        assert particles[start + k] == batch[k];
        assert batch[k].position.Minus(batch[k].velocity.Scale(dt)) == old(batch[k].position);
      }
      ghost var advanced := particles;
      particles := EraseDead(particles);
      AliveKeepsInvariants(advanced);
    }

    /** The first two lines of `update`: call `emit(dt)` and append the batch to the vector. */
    method AppendEmitted(dt: real, rng: Random) returns (emitted: seq<Particle>)
      requires Valid() && rng.Valid()
      modifies this`particles, emitter`timeSinceLastEmit, rng`draws
      ensures Valid() && particles == old(particles) + emitted
      ensures emitter.timeSinceLastEmit ==
                Emission.Carry(old(emitter.timeSinceLastEmit) + dt, emitter.emissionRate)
      ensures |emitted| ==
                Emission.BatchSize(Emission.Count(old(emitter.timeSinceLastEmit) + dt, emitter.emissionRate))
      ensures old(emitter.timeSinceLastEmit) + dt >= 0.0 && emitter.emissionRate > 0.0 ==>
                emitter.AccumulatorBounded()
      ensures old(emitter.timeSinceLastEmit) + dt >= 0.0 && emitter.emissionRate < 0.0 ==>
                emitted == [] && 0.0 <= emitter.timeSinceLastEmit <= old(emitter.timeSinceLastEmit) + dt
      ensures forall k :: 0 <= k < |emitted| ==> fresh(emitted[k]) && emitter.Spawned(emitted[k])
    {
      var newParticles := emitter.Emit(dt, rng);
      assert Distinct(particles + newParticles) by {
        forall i, j | 0 <= i < |particles| <= j < |particles + newParticles|
          ensures (particles + newParticles)[i] != (particles + newParticles)[j]
        {
          assert fresh(newParticles[j - |particles|]);
        }
      }
      particles := particles + newParticles;
      emitted := newParticles;
    }

  }

  /**
    The compaction loop of `update`: walk the vector with an iterator, erase
    the element under it when it is dead (the iterator then points at the
    next one), and step past it otherwise. The vector is a value, so the loop
    works on `kept`, which `update` stores back into the field.
   */
  method EraseDead(ps: seq<Particle>) returns (kept: seq<Particle>)
    ensures kept == Alive(ps)
  {
    kept := ps;
    ghost var seen := 0;
    var it := 0;
    while it < |kept|
      invariant 0 <= seen <= |ps|
      invariant kept == Alive(ps[..seen]) + ps[seen..]
      invariant it == |Alive(ps[..seen])|
      decreases |kept| - it
    {
      EraseStep(ps, seen, kept, it);
      if kept[it].IsDead() {
        kept := kept[..it] + kept[it + 1..];
      } else {
        it := it + 1;
      }
      seen := seen + 1;
    }
    assert ps[..seen] == ps;
  }

  /**
    One step of the erase loop. With the first `seen` elements already filtered
    and the iterator at the next unexamined element, erasing that element if it
    is dead, or stepping past it otherwise, filters one more element.
   */
  lemma EraseStep(original: seq<Particle>, seen: nat, particles: seq<Particle>, it: nat)
    requires seen < |original|
    requires particles == Alive(original[..seen]) + original[seen..]
    requires it == |Alive(original[..seen])|
    ensures it < |particles| && particles[it] == original[seen]
    ensures original[seen].IsDead() ==>
              && particles[..it] + particles[it + 1..] == Alive(original[..seen + 1]) + original[seen + 1..]
              && it == |Alive(original[..seen + 1])|
    ensures !original[seen].IsDead() ==>
              && particles == Alive(original[..seen + 1]) + original[seen + 1..]
              && it + 1 == |Alive(original[..seen + 1])|
  {
    AliveSnoc(original, seen);
    var done := Alive(original[..seen]);
    var rest := original[seen + 1..];
    assert original[seen..] == [original[seen]] + rest;
    assert particles == done + [original[seen]] + rest;
    if original[seen].IsDead() {
      assert particles[..it] == done;
      assert particles[it + 1..] == rest;
    }
  }
}
