/**
  The fountain application's engine: an `Emitter` that releases every new
  particle from its own position with a random velocity, and a
  `ParticleSystem` whose update removes dead particles with the
  erase-remove idiom (`std::remove_if` followed by `erase`).
 */
module MyParticleSystem {
  import opened Vectors
  import opened Particles
  import opened Randomness
  import Emission

  class Emitter {
    /** Where every new particle starts. */
    const position: Vec3
    /** Bound on each velocity component: it is drawn from `[-v, v]`. */
    const velocityRange: Vec3
    const color: Color
    const lifetime: real
    /** Particles per second. */
    const emissionRate: real
    /** The fractional-time accumulator. */
    var timeSinceLastEmit: real
    const mass: real

    /**
      What the constructor's callers must supply: a non-zero rate, so that
      `numToEmit / emissionRate` is defined, and a non-zero mass, so that
      `force / mass` is. A negative rate is allowed: from a non-negative
      accumulator with non-negative frame times it emits nothing, while a
      negative `dt` can make it emit.
     */
    ghost predicate Valid() {
      emissionRate != 0.0 && mass != 0.0
    }

    /** The accumulator holds less than one emission period. */
    ghost predicate AccumulatorBounded()
      reads this`timeSinceLastEmit
      requires Valid()
    {
      0.0 <= timeSinceLastEmit < 1.0 / emissionRate
    }

    /** A particle as `emit` creates it: age 0, at the emitter, with the emitter's colour, lifetime and mass. */
    ghost predicate Spawned(p: Particle)
      reads p
    {
      && p.age == 0.0 && p.position == position
      && p.color == color && p.lifetime == lifetime && p.mass == mass
      && InRange(p.velocity, Vec3(0.0, 0.0, 0.0), velocityRange)
    }

    constructor (pos: Vec3, velRange: Vec3, col: Color, life: real, rate: real, m: real)
      requires rate != 0.0 && m != 0.0
      ensures Valid() && (emissionRate > 0.0 ==> AccumulatorBounded())
      ensures position == pos && velocityRange == velRange && color == col
      ensures lifetime == life && emissionRate == rate && mass == m
      ensures timeSinceLastEmit == 0.0
    {
      position, velocityRange, color := pos, velRange, col;
      lifetime, emissionRate, mass := life, rate, m;
      timeSinceLastEmit := 0.0;
    }

    /**
      `emit(dt)`: advance the accumulator by `dt` and produce as many new
      particles as whole emission periods it holds, all at the emitter's
      position. The accumulator keeps the unused fraction. With a positive
      rate it stays below one period whenever it is non-negative once `dt` is
      added. With a negative rate and an accumulator that is non-negative once
      `dt` is added, nothing is emitted; a negative `dt` can make such an
      emitter emit.
     */
    method Emit(dt: real, rng: Random) returns (batch: seq<Particle>)
      requires Valid() && rng.Valid()
      modifies this`timeSinceLastEmit, rng`draws
      ensures timeSinceLastEmit == Emission.Carry(old(timeSinceLastEmit) + dt, emissionRate)
      ensures |batch| == Emission.BatchSize(Emission.Count(old(timeSinceLastEmit) + dt, emissionRate))
      ensures old(timeSinceLastEmit) + dt >= 0.0 && emissionRate > 0.0 ==>
                AccumulatorBounded() && Emission.WholePeriods(|batch|, old(timeSinceLastEmit) + dt, emissionRate)
      ensures old(timeSinceLastEmit) + dt >= 0.0 && emissionRate < 0.0 ==>
                batch == [] && 0.0 <= timeSinceLastEmit <= old(timeSinceLastEmit) + dt
      ensures Distinct(batch)
      ensures forall k :: 0 <= k < |batch| ==> fresh(batch[k]) && Spawned(batch[k])
    {
      batch := [];
      timeSinceLastEmit := timeSinceLastEmit + dt;
      ghost var t := timeSinceLastEmit;
      var numToEmit := Emission.Trunc(timeSinceLastEmit * emissionRate);
      assert numToEmit == Emission.Count(t, emissionRate);
      timeSinceLastEmit := timeSinceLastEmit - numToEmit as real / emissionRate;
      if t >= 0.0 && emissionRate > 0.0 {
        Emission.CarryBounded(t, emissionRate);
      } else if t >= 0.0 {
        Emission.NegativeRateSilent(t, emissionRate);
      }

      var i := 0;
      while i < numToEmit
        invariant 0 <= i == |batch| <= Emission.BatchSize(numToEmit)
        invariant timeSinceLastEmit == Emission.Carry(t, emissionRate)
        invariant Distinct(batch)
        invariant forall k :: 0 <= k < |batch| ==> fresh(batch[k]) && Spawned(batch[k])
      {
        var p := Spawn(rng);
        batch := batch + [p];
        i := i + 1;
      }
    }

    /**
      One pass of the loop in `emit`: draw a velocity in the velocity box with
      three `ofRandom` calls and build the particle at the emitter's position
      with the emitter's attributes.
     */
    method Spawn(rng: Random) returns (p: Particle)
      requires rng.Valid()
      modifies rng`draws
      ensures fresh(p) && Spawned(p)
      ensures rng.draws == old(rng.draws) + 3
    {
      var vx := rng.Uniform(-velocityRange.x, velocityRange.x);
      var vy := rng.Uniform(-velocityRange.y, velocityRange.y);
      var vz := rng.Uniform(-velocityRange.z, velocityRange.z);
      p := new Particle(position, Vec3(vx, vy, vz), color, lifetime, mass);
    }
  }

  class ParticleSystem {
    var particles: seq<Particle>
    const emitter: Emitter

    ghost predicate Valid()
      reads this
    {
      emitter.Valid() && Distinct(particles) && Massive(particles)
    }

    /** `ParticleSystem(em)`: no particles yet, and a private copy of the given emitter. */
    constructor (em: Emitter)
      requires em.Valid()
      ensures Valid() && particles == [] && fresh(emitter)
      ensures emitter.position == em.position && emitter.velocityRange == em.velocityRange
      ensures emitter.color == em.color && emitter.lifetime == em.lifetime
      ensures emitter.emissionRate == em.emissionRate && emitter.mass == em.mass
      ensures emitter.timeSinceLastEmit == em.timeSinceLastEmit
    {
      var copy := new Emitter(em.position, em.velocityRange, em.color, em.lifetime, em.emissionRate, em.mass);
      copy.timeSinceLastEmit := em.timeSinceLastEmit;
      emitter := copy;
      particles := [];
    }

    /**
      `applyForce`: every particle receives the force through `Particle::applyForce`.
      The collection keeps its length and order. Positions and ages are untouched,
      so no particle changes between dead and alive.
     */
    method ApplyForce(force: Vec3)
      requires Valid()
      modifies particles
      ensures Valid() && particles == old(particles)
      ensures forall k :: 0 <= k < |particles| ==>
                particles[k].velocity == old(particles[k].velocity).Plus(force.Div(particles[k].mass))
      ensures forall k :: 0 <= k < |particles| ==>
                particles[k].position == old(particles[k].position) && particles[k].age == old(particles[k].age)
      ensures old(NoneDead(particles)) ==> NoneDead(particles)
    {
      ApplyForceEach(particles, force);
    }

    /**
      A particle emitted during this frame's update and then advanced once by
      `dt`: it carries the emitter's attributes, has age `dt`, and sits one
      step of its own velocity away from the emitter.
     */
    ghost predicate SpawnedAndAdvanced(p: Particle, dt: real)
      reads p
    {
      && p.age == dt
      && p.color == emitter.color && p.lifetime == emitter.lifetime && p.mass == emitter.mass
      && InRange(p.velocity, Vec3(0.0, 0.0, 0.0), emitter.velocityRange)
      && p.position == emitter.position.Plus(p.velocity.Scale(dt))
    }

    /**
      `update(dt)`: append the emitter's new batch, advance every particle
      (including the new ones) by `dt`, then drop the dead ones. The result is
      the stable filter `not isDead` over the advanced `old ++ batch`, so no
      dead particle remains and no live one is lost, duplicated or reordered.
     */
    method Update(dt: real, rng: Random) returns (ghost emitted: seq<Particle>)
      requires Valid() && rng.Valid()
      modifies this, emitter, rng, particles
      ensures Valid() && NoneDead(particles)
      ensures emitter.timeSinceLastEmit ==
                Emission.Carry(old(emitter.timeSinceLastEmit) + dt, emitter.emissionRate)
      ensures |emitted| ==
                Emission.BatchSize(Emission.Count(old(emitter.timeSinceLastEmit) + dt, emitter.emissionRate))
      ensures old(emitter.timeSinceLastEmit) + dt >= 0.0 && emitter.emissionRate > 0.0 ==>
                emitter.AccumulatorBounded()
      ensures old(emitter.timeSinceLastEmit) + dt >= 0.0 && emitter.emissionRate < 0.0 ==>
                emitted == [] && 0.0 <= emitter.timeSinceLastEmit <= old(emitter.timeSinceLastEmit) + dt
      ensures particles == Alive(old(particles) + emitted)
      ensures forall k :: 0 <= k < |old(particles)| ==>
                && old(particles)[k].position == old(particles[k].position).Plus(old(particles[k].velocity).Scale(dt))
                && old(particles)[k].velocity == old(particles[k].velocity)
                && old(particles)[k].age == old(particles[k].age) + dt
      ensures forall k :: 0 <= k < |emitted| ==> fresh(emitted[k]) && SpawnedAndAdvanced(emitted[k], dt)
    {
      emitted := AppendEmitted(dt, rng);
      ghost var before := old(particles);
      ghost var all := particles;
      AdvanceAndCompact(dt, emitted);
      forall k | 0 <= k < |before|
        ensures && before[k].position == old(before[k].position).Plus(old(before[k].velocity).Scale(dt))
                && before[k].velocity == old(before[k].velocity)
                && before[k].age == old(before[k].age) + dt
      {
        assert all[k] == before[k];
      }
    }

    /**
      The rest of `update`: advance every particle by `dt`, then remove the
      dead ones, keeping the others in order. `batch` names the particles the
      emitter has just appended at the end of the vector. Each of them is
      advanced once from its spawn state.
     */
    method AdvanceAndCompact(dt: real, ghost batch: seq<Particle>)
      requires Valid()
      requires |batch| <= |particles| && particles[|particles| - |batch|..] == batch
      requires forall k :: 0 <= k < |batch| ==> emitter.Spawned(batch[k])
      modifies this`particles, particles
      ensures Valid() && NoneDead(particles)
      ensures particles == Alive(old(particles))
      ensures forall k :: 0 <= k < |old(particles)| ==>
                && old(particles)[k].position == old(particles[k].position).Plus(old(particles[k].velocity).Scale(dt))
                && old(particles)[k].velocity == old(particles[k].velocity)
                && old(particles)[k].age == old(particles[k].age) + dt
      ensures forall k :: 0 <= k < |batch| ==> SpawnedAndAdvanced(batch[k], dt)
    {
      ghost var start := |particles| - |batch|;
      UpdateEach(particles, dt);
      forall k | 0 <= k < |batch|
        ensures SpawnedAndAdvanced(batch[k], dt)
      {
        assert particles[start + k] == batch[k];
      }
      ghost var advanced := particles;
      particles := RemoveDead(particles);
      AliveKeepsInvariants(advanced);
    }

    /** The first two lines of `update`: call `emit(dt)` and append the batch to the vector. */
    method AppendEmitted(dt: real, rng: Random) returns (emitted: seq<Particle>)
      requires Valid() && rng.Valid()
      modifies this`particles, emitter`timeSinceLastEmit, rng`draws
      ensures Valid() && particles == old(particles) + emitted
      ensures emitter.timeSinceLastEmit ==
                Emission.Carry(old(emitter.timeSinceLastEmit) + dt, emitter.emissionRate)
      ensures |emitted| ==
                Emission.BatchSize(Emission.Count(old(emitter.timeSinceLastEmit) + dt, emitter.emissionRate))
      ensures old(emitter.timeSinceLastEmit) + dt >= 0.0 && emitter.emissionRate > 0.0 ==>
                emitter.AccumulatorBounded()
      ensures old(emitter.timeSinceLastEmit) + dt >= 0.0 && emitter.emissionRate < 0.0 ==>
                emitted == [] && 0.0 <= emitter.timeSinceLastEmit <= old(emitter.timeSinceLastEmit) + dt
      ensures forall k :: 0 <= k < |emitted| ==> fresh(emitted[k]) && emitter.Spawned(emitted[k])
    {
      var newParticles := emitter.Emit(dt, rng);
      assert Distinct(particles + newParticles) by {
        forall i, j | 0 <= i < |particles| <= j < |particles + newParticles|
          ensures (particles + newParticles)[i] != (particles + newParticles)[j]
        {
          assert fresh(newParticles[j - |particles|]);
        }
      }
      particles := particles + newParticles;
      emitted := newParticles;
    }

  }

  /**
    The erase-remove step of `update`. `std::remove_if` walks the vector
    with a read position and a write position, moving each live particle
    down to the write position. `erase` then cuts the vector at the write
    position. The vector is a value, so the loop works on `kept`, which
    `update` stores back into the field.
   */
  method RemoveDead(ps: seq<Particle>) returns (kept: seq<Particle>)
    ensures kept == Alive(ps)
  {
    kept := ps;
    var write := 0;
    var read := 0;
    while read < |kept|
      invariant |kept| == |ps|
      invariant 0 <= write <= read <= |ps|
      invariant kept[..write] == Alive(ps[..read])
      invariant kept[read..] == ps[read..]
    {
      RemoveStep(ps, read, kept, write);
      if !kept[read].IsDead() {
        kept := kept[write := kept[read]];
        write := write + 1;
      }
      read := read + 1;
    }
    assert ps[..read] == ps;
    kept := kept[..write];
  }

  /**
    One step of `remove_if`. With the first `read` elements filtered into the
    prefix before `write`, and the suffix from `read` still untouched, moving
    the element at `read` down to `write` if it is live, or skipping it if it
    is dead, filters one more element.
   */
  lemma RemoveStep(original: seq<Particle>, read: nat, particles: seq<Particle>, write: nat)
    requires read < |original| == |particles| && write <= read
    requires particles[..write] == Alive(original[..read])
    requires particles[read..] == original[read..]
    ensures particles[read] == original[read]
    ensures original[read].IsDead() ==>
              && particles[..write] == Alive(original[..read + 1])
              && particles[read + 1..] == original[read + 1..]
    ensures !original[read].IsDead() ==>
              && particles[write := particles[read]][..write + 1] == Alive(original[..read + 1])
              && particles[write := particles[read]][read + 1..] == original[read + 1..]
  {
    AliveSnoc(original, read);
    assert particles[read] == particles[read..][0] == original[read..][0];
    if !original[read].IsDead() {
      var moved := particles[write := particles[read]];
      assert moved[..write + 1] == particles[..write] + [original[read]];
      assert moved[read + 1..] == particles[read + 1..];
      assert particles[read + 1..] == particles[read..][1..];
    } else {
      assert particles[read + 1..] == particles[read..][1..];
    }
  }
}
