# Particle lifecycle engine of ModelowanieFizyczne

This project models the particle engine behind two openFrameworks sketches in
the ModelowanieFizyczne repository:

- `animacjaSwiateczna`, a snowfall sketch;
- `myParticleSystem`, a fountain sketch.

Each sketch's `ofApp.h` declares three classes.

- `Particle` holds a position, velocity, colour, lifetime, age and mass.
  - `applyForce` adds `force / mass` to the velocity.
  - `update(dt)` takes one explicit Euler step and ages the particle by `dt`.
  - `isDead` holds once the age exceeds the lifetime.
- An emitter turns a continuous emission rate and a variable frame time into
  whole batches of new particles, using a fractional-time accumulator
  `timeSinceLastEmit`.
  - `EmitterSnow` scatters new particles uniformly over a box centred on its
    position, `position ± emissionRange`.
  - `Emitter` releases them all from its position.
- `ParticleSystem` owns the particles. Its `update(dt)` appends the emitter's
  batch, advances every particle, then removes the dead ones in place.
  - The snowfall sketch erases while iterating.
  - The fountain sketch uses the erase-remove idiom.

The model is imperative, like the source. The modules are:

- `Vectors`: `ofVec3f` and `ofColor` as values.
- `Randomness`: `ofRandom` as an injected stream of unit draws.
- `Emission`: the accumulator arithmetic as functions, with lemmas about whole
  runs of frames.
- `Particles`: the `Particle` class, the two range-for loops over a vector of
  particles, and the stable filter `Alive`.
  - `Alive` is what both compaction loops compute.
  - The `Particle` class is declared identically in both sketches, at
    animacjaSwiateczna/src/ofApp.h:6-35 and myParticleSystem/src/ofApp.h:6-35,
    so it is modelled once.
  - `IsDead` is that class's `age > lifetime`. It is the definition the other
    contracts use, so it carries no contract of its own.
- `AnimacjaSwiateczna`: `EmitterSnow` and the snowfall sketch's
  `ParticleSystem`.
- `MyParticleSystem`: `Emitter` and the fountain sketch's `ParticleSystem`.

Mutable objects are classes whose methods update their fields. Fields that the
program never writes after construction are `const`. A `std::vector<Particle>`
is a `seq<Particle>` field. The `Distinct` invariant stands for the fact that
two slots of a vector never share one particle.

Each emitter's `Emit` is proved against the functions `Emission.Count` and
`Emission.Carry`. Each `ParticleSystem.Update` is proved against the filter
`Particles.Alive`, whose meaning the lemmas in `Particles` establish.

## Model

| member | source | states |
|---|---|---|
| Particles.Particle.constructor | animacjaSwiateczna/src/ofApp.h:15-16 | The fields take the given values and the age starts at 0. A particle built with a non-negative lifetime is not dead. |
| Particles.Particle.ApplyForce | animacjaSwiateczna/src/ofApp.h:18-20 | The velocity gains `force / mass`. Only the velocity may change. |
| Particles.Particle.Update | animacjaSwiateczna/src/ofApp.h:22-25 | The position moves by `velocity * dt` and the age grows by `dt`. Only the position and age may change. With `dt >= 0` the age never decreases. |
| Particles.Particle.IsDead | animacjaSwiateczna/src/ofApp.h:27-29 | A definition with no contract of its own: a particle is dead once its age exceeds its lifetime. The filter `Alive` and the `NoneDead` invariant are stated in terms of it. |
| Particles.ForceCancels | animacjaSwiateczna/src/ofApp.h:18-20 | Force acts linearly on velocity. A zero force leaves the velocity unchanged. Two forces applied in turn act as their sum. A force followed by its opposite restores the velocity. |
| Particles.ApplyForceEach | animacjaSwiateczna/src/ofApp.h:91-93 | Every particle in the vector gets `force / mass` added to its velocity. Positions and ages stay as they were, so no live particle becomes dead. |
| Particles.UpdateEach | animacjaSwiateczna/src/ofApp.h:100-102 | Every particle in the vector takes exactly one Euler step of `dt`. Its velocity is unchanged. |
| Particles.KeptIndicesOrdered | animacjaSwiateczna/src/ofApp.h:104-110 | `Alive(s)` is `s` read at the positions `KeptIndices(s)`. Those positions increase, so relative order is kept, and every particle at them is live. |
| Particles.KeptIndicesComplete | animacjaSwiateczna/src/ofApp.h:104-110 | Every position of `s` holding a live particle is kept, so the filter drops no live particle. |
| Particles.AliveMembers | animacjaSwiateczna/src/ofApp.h:104-110 | A particle survives the filter exactly when it is in `s` and not dead. No dead particle survives, and the filter never grows the sequence. |
| Particles.AliveDistinct | animacjaSwiateczna/src/ofApp.h:104-110 | Filtering a vector without shared particles gives one without shared particles, so no survivor is duplicated. |
| Particles.AliveKeepsInvariants | myParticleSystem/src/ofApp.h:92-96 | The filtered vector still has distinct particles of non-zero mass, and none of them is dead. |
| Particles.Alive | animacjaSwiateczna/src/ofApp.h:104-110 | A definition with no contract of its own: the stable filter `not isDead`, the live particles of a vector in their original order. Both compaction loops and both `Update` methods are proved against it, and the `KeptIndices` lemmas establish its meaning. |
| Particles.AliveSnoc | myParticleSystem/src/ofApp.h:92-96 | Filtering one more element extends the filtered prefix by that element exactly when it is live. |
| Randomness.Random.Uniform | animacjaSwiateczna/src/ofApp.h:62-72 | An `ofRandom(a, b)` sample lies between `a` and `b`, whichever is larger, and consumes one draw. |
| Emission.Trunc | animacjaSwiateczna/src/ofApp.h:58 | The `(int)` conversion truncates toward zero. It is the floor for non-negative values and the ceiling for negative ones. |
| Emission.Count | animacjaSwiateczna/src/ofApp.h:58 | A definition with no contract of its own: `numToEmit` is `(int)(t * rate)`, where `t` is the accumulator after `+= dt`. The `Emit` contracts and the lemmas below are stated in terms of it. |
| Emission.Carry | animacjaSwiateczna/src/ofApp.h:59 | A definition with no contract of its own: the accumulator left behind is `t - numToEmit / rate`. The `Emit` contracts and the lemmas below are stated in terms of it. |
| Emission.CarryBounded | animacjaSwiateczna/src/ofApp.h:57-59 | With a non-negative accumulator `t` (this frame's `dt` included) and a positive rate, the count is `floor(t * rate)` and the loop runs exactly that often. The accumulator left behind lies in `[0, 1 / rate)`. |
| Emission.NegativeRateSilent | animacjaSwiateczna/src/ofApp.h:57-61 | With a negative rate and a non-negative accumulator `t`, the count is zero or negative, so the loop emits nothing. The accumulator left behind lies in `[0, t]`, so the next frame with a non-negative `dt` again starts from a non-negative accumulator. |
| Emission.RunConserves | animacjaSwiateczna/src/ofApp.h:57-59 | Over any run of non-negative frame times, the emitted time plus the final remainder equals the initial accumulator plus the elapsed time. The remainder is non-negative, and after at least one frame it is below `1 / rate`. |
| Emission.RunExact | animacjaSwiateczna/src/ofApp.h:57-59 | From an accumulator `acc` in `[0, 1 / rate)`, the total emitted over any run of non-negative frame times is `floor(t * rate)`, where `t` is `acc` plus the elapsed time. No particle is lost or gained however the time is split into frames. |
| Emission.FountainSecond | myParticleSystem/src/ofApp.cpp:9 | The fountain's emitter releases 1000 particles per second. Started fresh and driven for 100 frames of 0.01 s, it emits exactly 1000 particles. |
| AnimacjaSwiateczna.EmitterSnow.constructor | animacjaSwiateczna/src/ofApp.h:50-52 | Every attribute takes the given value and the accumulator starts at 0. |
| AnimacjaSwiateczna.EmitterSnow.Emit | animacjaSwiateczna/src/ofApp.h:55-77 | With `t = acc + dt` and `count = (int)(t * rate)`, the accumulator becomes `t - count / rate`. The loop `for (i = 0; i < numToEmit; ++i)` runs `max(count, 0)` times, so exactly that many new, distinct particles are returned. Each has age 0, the emitter's colour, lifetime and mass, a position within `position ± emissionRange` and a velocity within `±velocityRange`. With `t >= 0` and a positive rate, the count is `floor(t * rate)` and the accumulator stays in `[0, 1 / rate)`. With `t >= 0` and a negative rate, nothing is emitted and the accumulator stays in `[0, t]`. |
| AnimacjaSwiateczna.EmitterSnow.Spawn | animacjaSwiateczna/src/ofApp.h:62-74 | One pass of the emission loop: a new particle with age 0, the emitter's colour, lifetime and mass, a position within `position ± emissionRange` and a velocity within `±velocityRange`. It takes six draws. |
| AnimacjaSwiateczna.ParticleSystem.constructor | animacjaSwiateczna/src/ofApp.h:87-88 | The system starts with no particles and its own copy of the emitter, accumulator included. |
| AnimacjaSwiateczna.ParticleSystem.ApplyForce | animacjaSwiateczna/src/ofApp.h:90-94 | The particle vector keeps its count and order. Each particle's velocity gains `force / mass`, and positions and ages do not change. |
| AnimacjaSwiateczna.ParticleSystem.AppendEmitted | animacjaSwiateczna/src/ofApp.h:97-98 | The vector becomes the old vector followed by the emitter's batch, and no particle is shared between slots. |
| AnimacjaSwiateczna.ParticleSystem.Update | animacjaSwiateczna/src/ofApp.h:96-111 | The new vector is the stable filter `not isDead` over old particles followed by the batch, each advanced by `dt`. No particle left is dead. Each old particle moved by one Euler step. Each new particle carries the emitter's attributes, has age `dt`, and lies one step from the emission box. The accumulator update is as for `Emit`. |
| AnimacjaSwiateczna.ParticleSystem.AdvanceAndCompact | animacjaSwiateczna/src/ofApp.h:100-110 | Every particle takes one Euler step, then the vector becomes `Alive` of the advanced vector. No dead particle is left and the invariants hold. Each particle of the batch just appended has age `dt` and lies one step from the emission box. |
| AnimacjaSwiateczna.EraseDead | animacjaSwiateczna/src/ofApp.h:104-110 | The erase-while-iterating loop leaves exactly `Alive` of the vector it started from: the live particles in their original order. |
| AnimacjaSwiateczna.EraseStep | animacjaSwiateczna/src/ofApp.h:105-109 | One step of the loop: erasing a dead element under the iterator, or stepping past a live one, filters one more element of the original vector. |
| MyParticleSystem.Emitter.constructor | myParticleSystem/src/ofApp.h:49-51 | Every attribute takes the given value and the accumulator starts at 0. |
| MyParticleSystem.Emitter.Emit | myParticleSystem/src/ofApp.h:54-69 | With `t = acc + dt` and `count = (int)(t * rate)`, the accumulator becomes `t - count / rate`. The loop `for (i = 0; i < numToEmit; ++i)` runs `max(count, 0)` times, so exactly that many new, distinct particles are returned. Each sits exactly at the emitter's position, with age 0, the emitter's colour, lifetime and mass, and a velocity within `±velocityRange`. With `t >= 0` and a positive rate, the count is `floor(t * rate)` and the accumulator stays in `[0, 1 / rate)`. With `t >= 0` and a negative rate, nothing is emitted and the accumulator stays in `[0, t]`. |
| MyParticleSystem.Emitter.Spawn | myParticleSystem/src/ofApp.h:61-66 | One pass of the emission loop: a new particle at the emitter's position, with age 0, the emitter's colour, lifetime and mass, and a velocity within `±velocityRange`. It takes three draws. |
| MyParticleSystem.ParticleSystem.constructor | myParticleSystem/src/ofApp.h:78 | The system starts with no particles and its own copy of the emitter, accumulator included. |
| MyParticleSystem.ParticleSystem.ApplyForce | myParticleSystem/src/ofApp.h:80-84 | The particle vector keeps its count and order. Each particle's velocity gains `force / mass`, and positions and ages do not change. |
| MyParticleSystem.ParticleSystem.AppendEmitted | myParticleSystem/src/ofApp.h:87-88 | The vector becomes the old vector followed by the emitter's batch, and no particle is shared between slots. |
| MyParticleSystem.ParticleSystem.Update | myParticleSystem/src/ofApp.h:86-97 | The new vector is the stable filter `not isDead` over old particles followed by the batch, each advanced by `dt`. No particle left is dead. Each old particle moved by one Euler step. Each new particle has age `dt`, the emitter's attributes, and sits at `position + velocity * dt`. The accumulator update is as for `Emit`. |
| MyParticleSystem.ParticleSystem.AdvanceAndCompact | myParticleSystem/src/ofApp.h:89-96 | Every particle takes one Euler step, then the vector becomes `Alive` of the advanced vector. No dead particle is left and the invariants hold. Each particle of the batch just appended has age `dt` and sits at `position + velocity * dt`. |
| MyParticleSystem.RemoveDead | myParticleSystem/src/ofApp.h:92-96 | `remove_if` followed by `erase` leaves exactly `Alive` of the vector it started from: the live particles in their original order. |
| MyParticleSystem.RemoveStep | myParticleSystem/src/ofApp.h:93-94 | One step of `remove_if`: moving a live element down to the write position, or skipping a dead one, filters one more element of the original vector. |

## Left out

- Rendering is not modelled. This covers the `draw` methods, all of `ofApp` and `main.cpp`: colours, spheres, the camera and the background image are host plumbing.
- Sphere collision is not modelled. The fountain's `ofApp.cpp` sets a sphere position and radius, but its `ParticleSystem` has no collision code to model.
- Floating point is not modelled. Every `float` is an exact `real`, so IEEE-754 rounding is absent. So is the undefined behaviour of a `(int)` conversion whose value does not fit in an `int`.
- `ofRandom` is not modelled internally. It is replaced by a `Random` object that replays an injected stream of draws in `[0, 1]`. The only property used is that each sample lies between its bounds.
- Clocks are not modelled: the frame time `dt` that `ofGetLastFrameTime` supplies is a parameter.
- The reset key's `delete` and `new` of the whole system in `ofApp.cpp` are not modelled: they are pointer lifetime management.
- Construction-time validation is not modelled, because the constructors validate nothing. The model requires a non-zero emission rate and a non-zero mass, which `emit` and `applyForce` divide by, but the constructors do not check.
  - With a zero rate, `timeSinceLastEmit -= numToEmit / emissionRate` divides by zero.
  - `force / mass` is `ofVec3f`'s division operator, which belongs to openFrameworks and is not part of this model. The model requires a non-zero mass so that the division is an ordinary one.
  - A negative rate is accepted, as in the code. From a non-negative accumulator and with non-negative frame times, such an emitter never emits, and its accumulator is still trimmed and stays non-negative. `Emission.NegativeRateSilent` states this. A negative `dt` can make it emit.
  - The lifetime is not required to be positive.
- A negative `dt` is not rejected, just as in the code. The properties that need a non-negative accumulator are stated conditionally on `acc + dt >= 0`, and those about runs of frames on every `dt` being non-negative.
- Particles are values held in a `std::vector` in C++. The model holds references to particle objects in a `seq`. `Distinct` rules out one object appearing in two slots, which a vector of values cannot do.
  - `remove_if` moves particles down by assignment. The model moves references instead.
  - The moved-from tail that `erase` discards is never observed.
- AnimacjaSwiateczna.ParticleSystem.Update: returns the emitted batch as a ghost value, while the source's `update` returns nothing. The batch is there only so the contract can name the new particles.
- MyParticleSystem.ParticleSystem.Update: returns the emitted batch as a ghost value, while the source's `update` returns nothing. The batch is there only so the contract can name the new particles.
