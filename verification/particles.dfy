/**
  The `Particle` class. The two applications declare it identically. This module
  also holds the stable filter that both `ParticleSystem::update` variants
  implement: keep the particles that are not dead, in their original order.
 */
module Particles {
  import opened Vectors

  class Particle {
    var position: Vec3
    var velocity: Vec3
    /** Never written after construction anywhere in the program. */
    const color: Color
    /** Lifetime in seconds, never written after construction. */
    const lifetime: real
    /** Age in seconds. */
    var age: real
    /** Never written after construction. `applyForce` divides by it. */
    const mass: real

    /** `Particle(pos, vel, col, life, m)`: a particle starts at age 0. */
    constructor (pos: Vec3, vel: Vec3, col: Color, life: real, m: real)
      ensures position == pos && velocity == vel && color == col
      ensures lifetime == life && mass == m && age == 0.0
      ensures life >= 0.0 ==> !IsDead()
    {
      position, velocity, color := pos, vel, col;
      lifetime, age, mass := life, 0.0, m;
    }

    /** `applyForce`: the velocity gains `force / mass`, and nothing else changes. */
    method ApplyForce(force: Vec3)
      requires mass != 0.0
      modifies this`velocity
      ensures velocity == old(velocity).Plus(force.Div(mass))
    {
      velocity := velocity.Plus(force.Div(mass));
    }

    /**
      `update(dt)`: one explicit Euler step. Position moves by `velocity * dt`
      and age grows by `dt`. Velocity and everything else stay as they were.
     */
    method Update(dt: real)
      modifies this`position, this`age
      ensures position == old(position).Plus(velocity.Scale(dt))
      ensures age == old(age) + dt
      ensures dt >= 0.0 ==> age >= old(age)
    {
      position := position.Plus(velocity.Scale(dt));
      age := age + dt;
    }

    /** `isDead`: the particle has outlived its lifetime. */
    predicate IsDead()
      reads this`age
    {
      age > lifetime
    }
  }

  /**
    Forces act linearly on velocity: a zero force leaves it unchanged, two
    forces applied in turn act as their sum, and a force followed by its
    opposite restores the velocity.
   */
  lemma ForceCancels(v: Vec3, f: Vec3, g: Vec3, m: real)
    requires m != 0.0
    ensures v.Plus(Vec3(0.0, 0.0, 0.0).Div(m)) == v
    ensures v.Plus(f.Plus(g).Div(m)) == v.Plus(f.Div(m)).Plus(g.Div(m))
    ensures v.Plus(f.Div(m)).Plus(f.Scale(-1.0).Div(m)) == v
  {
    var neg := f.Scale(-1.0);
    assert neg.x / m == -(f.x / m) && neg.y / m == -(f.y / m) && neg.z / m == -(f.z / m);
  }

  /** No particle object occurs twice: a vector of values never shares an element. */
  ghost predicate Distinct(s: seq<Particle>) {
    forall i, j :: 0 <= i < j < |s| ==> s[i] != s[j]
  }

  /** Every particle may receive a force: none has zero mass. */
  ghost predicate Massive(s: seq<Particle>) {
    forall i :: 0 <= i < |s| ==> s[i].mass != 0.0
  }

  /** No particle in `s` is dead. */
  ghost predicate NoneDead(s: seq<Particle>)
    reads s
  {
    forall i :: 0 <= i < |s| ==> !s[i].IsDead()
  }

  /**
    The range-for loop `for (auto& p : particles) p.applyForce(force)`: each
    particle's velocity gains `force / mass`. The sequence keeps its length and
    order. Positions and ages are untouched.
   */
  method ApplyForceEach(ps: seq<Particle>, force: Vec3)
    requires Distinct(ps) && Massive(ps)
    modifies ps
    ensures forall k :: 0 <= k < |ps| ==>
              ps[k].velocity == old(ps[k].velocity).Plus(force.Div(ps[k].mass))
    ensures forall k :: 0 <= k < |ps| ==>
              ps[k].position == old(ps[k].position) && ps[k].age == old(ps[k].age)
    ensures old(NoneDead(ps)) ==> NoneDead(ps)
  {
    var i := 0;
    while i < |ps|
      invariant 0 <= i <= |ps|
      invariant forall k :: 0 <= k < i ==>
                  ps[k].velocity == old(ps[k].velocity).Plus(force.Div(ps[k].mass))
      invariant forall k :: i <= k < |ps| ==> ps[k].velocity == old(ps[k].velocity)
      invariant forall k :: 0 <= k < |ps| ==>
                  ps[k].position == old(ps[k].position) && ps[k].age == old(ps[k].age)
    {
      ps[i].ApplyForce(force);
      i := i + 1;
    }
  }

  /**
    The range-for loop `for (auto& p : particles) p.update(dt)`: one Euler step
    for every particle. Velocities stay as they were.
   */
  method UpdateEach(ps: seq<Particle>, dt: real)
    requires Distinct(ps)
    modifies ps
    ensures forall k :: 0 <= k < |ps| ==>
              && ps[k].position == old(ps[k].position).Plus(old(ps[k].velocity).Scale(dt))
              && ps[k].velocity == old(ps[k].velocity)
              && ps[k].age == old(ps[k].age) + dt
  {
    var i := 0;
    while i < |ps|
      invariant 0 <= i <= |ps|
      invariant forall k :: 0 <= k < i ==>
                  && ps[k].position == old(ps[k].position).Plus(old(ps[k].velocity).Scale(dt))
                  && ps[k].age == old(ps[k].age) + dt
      invariant forall k :: i <= k < |ps| ==>
                  ps[k].position == old(ps[k].position) && ps[k].age == old(ps[k].age)
      invariant forall k :: 0 <= k < |ps| ==> ps[k].velocity == old(ps[k].velocity)
    {
      ps[i].Update(dt);
      i := i + 1;
    }
  }

  /** The stable filter `not isDead`: the live particles of `s`, in their order in `s`. */
  ghost function Alive(s: seq<Particle>): seq<Particle>
    reads s
    decreases |s|
  {
    if s == [] then []
    else Alive(s[..|s| - 1]) + (if s[|s| - 1].IsDead() then [] else [s[|s| - 1]])
  }

  /** The positions in `s` that `Alive(s)` keeps, in increasing order. */
  ghost function KeptIndices(s: seq<Particle>): seq<nat>
    reads s
    decreases |s|
  {
    if s == [] then []
    else KeptIndices(s[..|s| - 1]) + (if s[|s| - 1].IsDead() then [] else [|s| - 1])
  }

  /**
    `Alive` picks out the particles at the positions `KeptIndices` lists. The
    positions increase, so order is kept, and each kept particle is live.
   */
  lemma {:induction false} KeptIndicesOrdered(s: seq<Particle>)
    ensures |KeptIndices(s)| == |Alive(s)|
    ensures forall k :: 0 <= k < |KeptIndices(s)| ==>
              KeptIndices(s)[k] < |s| && Alive(s)[k] == s[KeptIndices(s)[k]]
    ensures forall k :: 0 <= k < |KeptIndices(s)| ==> !s[KeptIndices(s)[k]].IsDead()
    ensures forall k, l :: 0 <= k < l < |KeptIndices(s)| ==> KeptIndices(s)[k] < KeptIndices(s)[l]
    decreases |s|
  {
    if s != [] {
      var init := s[..|s| - 1];
      KeptIndicesOrdered(init);
      assert forall i :: 0 <= i < |init| ==> init[i] == s[i];
    }
  }

  /**
    Every live position is kept. With `KeptIndicesOrdered`, `Alive` is exactly
    the stable filter: no live particle is dropped, none is duplicated, and no
    dead one survives.
   */
  lemma {:induction false} KeptIndicesComplete(s: seq<Particle>)
    ensures forall i :: 0 <= i < |s| && !s[i].IsDead() ==> i in KeptIndices(s)
    decreases |s|
  {
    if s != [] {
      var init := s[..|s| - 1];
      KeptIndicesComplete(init);
      assert forall i :: 0 <= i < |init| ==> init[i] == s[i];
    }
  }

  /** A particle survives the filter exactly when it is in `s` and is not dead. */
  lemma AliveMembers(s: seq<Particle>)
    ensures forall p :: p in Alive(s) <==> p in s && !p.IsDead()
    ensures NoneDead(Alive(s))
    ensures |Alive(s)| <= |s|
  {
    KeptIndicesOrdered(s);
    KeptIndicesComplete(s);
    var idx := KeptIndices(s);
    forall p | p in s && !p.IsDead()
      ensures p in Alive(s)
    {
      var i :| 0 <= i < |s| && s[i] == p;
      var k :| 0 <= k < |idx| && idx[k] == i;
      assert Alive(s)[k] == p;
    }
    assert |Alive(s)| <= |s| by {
      StrictlyIncreasingBound(idx, |s|);
    }
  }

  /** A strictly increasing sequence of positions below `n` has at most `n` entries. */
  lemma {:induction false} StrictlyIncreasingBound(idx: seq<nat>, n: nat)
    requires forall k :: 0 <= k < |idx| ==> idx[k] < n
    requires forall k, l :: 0 <= k < l < |idx| ==> idx[k] < idx[l]
    ensures |idx| <= n
    decreases n
  {
    if idx != [] {
      var last := idx[|idx| - 1];
      var init := idx[..|idx| - 1];
      assert forall k :: 0 <= k < |init| ==> init[k] < last;
      StrictlyIncreasingBound(init, last);
    }
  }

  /** Filtering a sequence without repeats gives a sequence without repeats. */
  lemma AliveDistinct(s: seq<Particle>)
    requires Distinct(s)
    ensures Distinct(Alive(s))
  {
    KeptIndicesOrdered(s);
    var idx := KeptIndices(s);
    forall k, l | 0 <= k < l < |Alive(s)|
      ensures Alive(s)[k] != Alive(s)[l]
    {
      assert idx[k] < idx[l];
    }
  }

  /** The filter keeps the collection's invariants and leaves no dead particle. */
  lemma AliveKeepsInvariants(s: seq<Particle>)
    requires Distinct(s) && Massive(s)
    ensures Distinct(Alive(s)) && Massive(Alive(s)) && NoneDead(Alive(s))
  {
    AliveMembers(s);
    AliveDistinct(s);
    var alive := Alive(s);
    forall k | 0 <= k < |alive|
      ensures alive[k].mass != 0.0
    {
      assert alive[k] in alive;
    }
  }

  /** Filtering one more element extends the filtered prefix. Used by both compaction loops. */
  lemma AliveSnoc(s: seq<Particle>, j: nat)
    requires j < |s|
    ensures Alive(s[..j + 1]) == Alive(s[..j]) + (if s[j].IsDead() then [] else [s[j]])
  {
    assert s[..j + 1][..j] == s[..j];
  }
}
