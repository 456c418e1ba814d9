/**
  The random source behind openFrameworks' `ofRandom(a, b)`. The model does not
  use a process-wide generator. It uses an explicitly passed object that replays
  an injected stream of unit draws, so the stream can be seeded and replayed.
  The only property the particle engine relies on is the range: every sample
  lies between the two bounds, in whichever order they are given.
 */
module Randomness {
  import opened Vectors
  import Arith

  class Random {
    /** The injected stream: the k-th draw is `unit(k)`, a number in [0, 1]. */
    const unit: nat -> real
    /** How many draws have been taken so far. */
    var draws: nat

    ghost predicate Valid() {
      forall k: nat :: 0.0 <= unit(k) <= 1.0
    }

    constructor (unit: nat -> real)
      requires forall k: nat :: 0.0 <= unit(k) <= 1.0
      ensures Valid()
      ensures this.unit == unit && draws == 0
    {
      this.unit := unit;
      draws := 0;
    }

    /** `ofRandom(a, b)`: a sample between `a` and `b`, which may come in either order. */
    method Uniform(a: real, b: real) returns (r: real)
      requires Valid()
      modifies this`draws
      ensures Between(r, a, b)
      ensures draws == old(draws) + 1
    {
      var lo, hi := Min(a, b), Max(a, b);
      var u := unit(draws);
      Arith.Interpolate(lo, hi, u);
      r := Arith.Lerp(lo, hi, u);
      draws := draws + 1;
    }
  }
}
