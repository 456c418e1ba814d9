/**
  The fractional-time accumulator shared by `Emitter::emit` and
  `EmitterSnow::emit`. Each call adds the frame time `dt` to the accumulator,
  converts `accumulator * emissionRate` to `int` (truncating toward zero), emits
  that many particles, and subtracts the emitted time `count / emissionRate`.
  Reals stand for the source's floats. The functions here are the specification
  the two emitters' `Emit` methods are proved against.
 */
module Emission {
  import Arith

  /** The C++ conversion `(int) x`: truncation toward zero. */
  function Trunc(x: real): (n: int)
    ensures 0.0 <= x ==> 0 <= n && n as real <= x < n as real + 1.0
    ensures x < 0.0 ==> n <= 0 && n as real - 1.0 < x <= n as real
  {
    if x >= 0.0 then x.Floor else -((-x).Floor)
  }

  /**
    `n` is the number of whole emission periods `1 / rate` that fit in the
    time `t`: the floor of `t * rate`, the greatest integer not above it.
   */
  predicate WholePeriods(n: int, t: real, rate: real) {
    n as real <= t * rate < n as real + 1.0
  }

  /**
    `numToEmit`: the particle count computed from the accumulator `t`, which
    already includes this frame's `dt`.
   */
  function Count(t: real, rate: real): int {
    Trunc(t * rate)
  }

  /** The accumulator left behind: `t` minus the time the emitted count used. */
  function Carry(t: real, rate: real): real
    requires rate != 0.0
  {
    t - Count(t, rate) as real / rate
  }

  /** The number of particles a `for (i = 0; i < count; ++i)` loop produces. */
  function BatchSize(count: int): nat {
    if count > 0 then count else 0
  }

  /**
    With a non-negative accumulator `t` and a positive rate, the emitted count
    is exactly `floor(t * rate)`, and the carried remainder is less than one
    emission period: it lies in `[0, 1 / rate)`.
   */
  lemma CarryBounded(t: real, rate: real)
    requires rate > 0.0 && t >= 0.0
    ensures WholePeriods(Count(t, rate), t, rate)
    ensures BatchSize(Count(t, rate)) == Count(t, rate)
    ensures 0.0 <= Carry(t, rate) < 1.0 / rate
  {
    var x := t * rate;
    Arith.MulNonNegative(t, rate);
    var n := Trunc(x);
    Arith.UnscaleDifference(t, n as real, rate);
    Arith.FractionOfPeriod(x - n as real, rate);
  }

  /**
    A negative rate never emits from a non-negative accumulator: the count is
    zero or negative, so the loop does not run. The accumulator is trimmed all
    the same, and stays between 0 and `t`, so with non-negative frame times
    the next frame starts from a non-negative accumulator again.
   */
  lemma NegativeRateSilent(t: real, rate: real)
    requires rate < 0.0 && t >= 0.0
    ensures Count(t, rate) <= 0 && BatchSize(Count(t, rate)) == 0
    ensures 0.0 <= Carry(t, rate) <= t
  {
    Arith.MulNonPositive(t, rate);
    var n := Count(t, rate);
    Arith.DivideNonPositive(n as real, rate);
    Arith.DivideByNegative(n as real, t, rate);
  }

  /** Total of a sequence of frame times. */
  function Sum(dts: seq<real>): real {
    if dts == [] then 0.0 else dts[0] + Sum(dts[1..])
  }

  /** The number of particles produced over a run of frames, and the accumulator at its end. */
  function Run(acc: real, dts: seq<real>, rate: real): (real, nat)
    requires rate != 0.0
    decreases dts
  {
    if dts == [] then (acc, 0)
    else
      var rest := Run(Carry(acc + dts[0], rate), dts[1..], rate);
      (rest.0, BatchSize(Count(acc + dts[0], rate)) + rest.1)
  }

  predicate AllNonNegative(dts: seq<real>) {
    forall i :: 0 <= i < |dts| ==> dts[i] >= 0.0
  }

  /**
    Long-run exactness of the accumulator: over any run of non-negative frame
    times, the particles produced plus the final remainder account for the
    whole elapsed time. No fraction of a particle is lost or rounded away,
    however the time is chunked.
   */
  lemma {:induction false} RunConserves(acc: real, dts: seq<real>, rate: real)
    requires rate > 0.0 && acc >= 0.0 && AllNonNegative(dts)
    ensures Run(acc, dts, rate).1 as real / rate + Run(acc, dts, rate).0 == acc + Sum(dts)
    ensures 0.0 <= Run(acc, dts, rate).0
    ensures dts != [] ==> Run(acc, dts, rate).0 < 1.0 / rate
    decreases dts
  {
    if dts != [] {
      var c := Carry(acc + dts[0], rate);
      var n := Count(acc + dts[0], rate);
      CarryBounded(acc + dts[0], rate);
      assert AllNonNegative(dts[1..]);
      RunConserves(c, dts[1..], rate);
      var rest := Run(c, dts[1..], rate);
      assert Run(acc, dts, rate) == (rest.0, n + rest.1);
      Arith.DivideSum(n as real, rest.1 as real, rate);
      assert (n + rest.1) as real / rate == n as real / rate + rest.1 as real / rate;
      assert c == acc + dts[0] - n as real / rate;
      assert Sum(dts) == dts[0] + Sum(dts[1..]);
    }
  }

  /**
    Starting from an accumulator in `[0, 1 / rate)`, the total count after any
    run of non-negative frame times is `floor(t * rate)`, where `t` is the
    starting accumulator plus the elapsed time. With the constructor's
    `acc = 0`, `t` is just the elapsed time.
   */
  lemma RunExact(acc: real, dts: seq<real>, rate: real, t: real)
    requires rate > 0.0 && 0.0 <= acc < 1.0 / rate && AllNonNegative(dts)
    requires t == acc + Sum(dts)
    ensures WholePeriods(Run(acc, dts, rate).1, t, rate)
  {
    RunBounded(acc, dts, rate);
    WholeEvents(Run(acc, dts, rate).1, Run(acc, dts, rate).0, t, rate);
  }

  /** `RunConserves`, with the empty run included: then the remainder is the starting accumulator. */
  lemma RunBounded(acc: real, dts: seq<real>, rate: real)
    requires rate > 0.0 && 0.0 <= acc < 1.0 / rate && AllNonNegative(dts)
    ensures 0.0 <= Run(acc, dts, rate).0 < 1.0 / rate
    ensures Run(acc, dts, rate).1 as real / rate + Run(acc, dts, rate).0 == acc + Sum(dts)
  {
    RunConserves(acc, dts, rate);
    if dts == [] {
      assert Run(acc, dts, rate) == (acc, 0);
    }
  }

  /**
    The fountain's emitter releases 1000 particles per second. A hundred frames
    of 0.01 s from a fresh emitter produce exactly 1000 particles.
   */
  lemma FountainSecond(dts: seq<real>)
    requires |dts| == 100 && forall i :: 0 <= i < |dts| ==> dts[i] == 0.01
    ensures Run(0.0, dts, 1000.0).1 == 1000
  {
    SumConstant(dts, 0.01);
    RunExact(0.0, dts, 1000.0, 1.0);
  }

  /** Frames that all last `dt` take `n * dt` together, where `n` is their number. */
  lemma {:induction false} SumConstant(dts: seq<real>, dt: real)
    requires forall i :: 0 <= i < |dts| ==> dts[i] == dt
    ensures Sum(dts) == |dts| as real * dt
    decreases dts
  {
    if dts != [] {
      SumConstant(dts[1..], dt);
      assert Sum(dts) == dt + (|dts| - 1) as real * dt;
      Arith.Distribute(|dts| as real, 1.0, dt);
    }
  }

  /** If `n` events plus a remainder `c` shorter than one period fill time `t`, then `n = floor(t * rate)`. */
  lemma WholeEvents(n: nat, c: real, t: real, rate: real)
    requires rate > 0.0 && 0.0 <= c < 1.0 / rate
    requires n as real / rate + c == t
    ensures WholePeriods(n, t, rate)
  {
    Arith.BelowOnePeriod(c, rate);
    Arith.ScaleBack(n as real, c, rate);
  }
}
