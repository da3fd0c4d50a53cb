/** The jittered time to live in 64-bit durations. */
module Ttl {
  newtype Duration = x: int | -0x8000_0000_0000_0000 <= x < 0x8000_0000_0000_0000

  const MAX_DURATION: Duration := 0x7FFF_FFFF_FFFF_FFFF
  const JITTER_PERCENT: Duration := 10

  /** The pseudo-random generator: which value a draw gives is left open, that each draw advances it is not.
      The closure's mutex makes draws happen one at a time. */
  class Generator {
    var drawn: nat
    /** The last draw and its bound. */
    ghost var last: int
    ghost var bound: int

    constructor ()
      ensures drawn == 0
    {
      drawn, last, bound := 0, 0, 1;
    }

    /** Some value in [0, n), as Int63n promises for positive n. */
    method Int63n(n: Duration) returns (draw: Duration)
      requires n > 0
      modifies this
      ensures 0 <= draw < n
      ensures drawn == old(drawn) + 1 && last == draw as int && bound == n as int
    {
      draw :| 0 <= draw < n;
      drawn, last, bound := drawn + 1, draw as int, n as int;
    }
  }

  /** The largest jitter a base allows: a tenth of it, or what is left up to the largest duration. */
  function MaxJitter(base: Duration): (most: Duration)
    requires base > 0
    ensures 0 <= most && most as int <= base as int / 10
    ensures base as int + most as int <= MAX_DURATION as int
    ensures most as int < base as int / 10 ==> base as int + most as int == MAX_DURATION as int
  {
    var tenth := base / JITTER_PERCENT;
    var remaining := MAX_DURATION - base;
    if tenth > remaining then remaining else tenth
  }

  class Jitter {
    const random: Generator

    constructor ()
      ensures fresh(random) && random.drawn == 0
    {
      random := new Generator();
    }

    /** Every step stays within 64 bits; a positive base, however large, gives a positive time to live: the base
        plus one draw among all jitters allowed. */
    method Apply(base: Duration) returns (ttl: Duration)
      modifies random
      ensures base <= 0 ==> ttl == base && random.drawn == old(random.drawn)
      ensures base > 0 ==> base <= ttl && ttl as int <= base as int + MaxJitter(base) as int
      ensures base > 0 && MaxJitter(base) > 0 ==>
                ttl as int == base as int + random.last && random.bound == MaxJitter(base) as int + 1
      ensures base > 0 ==> random.drawn == old(random.drawn) + (if MaxJitter(base) > 0 then 1 else 0)
    {
      if base <= 0 {
        return base;
      }
      var maxJitter := base / JITTER_PERCENT;
      var remaining := MAX_DURATION - base;
      if maxJitter > remaining {
        maxJitter := remaining;
      }
      if maxJitter <= 0 {
        return base;
      }
      var jitter := random.Int63n(maxJitter + 1);
      return base + jitter;
    }
  }
}
