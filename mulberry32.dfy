/** The mulberry32 pseudo-random generator. In the source it is a closure over
    a JavaScript number `seed`; every use of that number goes through
    `Math.imul`, `^`, `|` or `>>>`, which all reduce it modulo 2^32, so the
    state is carried here as a `bv32`. */
module Mulberry32 {

  /** The constant added to the state on every draw. */
  const Increment: bv32 := 0x6d2b79f5

  const TwoTo32: int := 0x1_0000_0000

  /** The 32 bits of a JavaScript integer seed (ToUint32). */
  function SeedBits(seed: int): bv32 {
    (seed % TwoTo32) as bv32
  }

  /** The mixing of one draw, from the freshly advanced state to the unsigned
      32-bit output; `Math.imul` is 32-bit wrap-around multiplication and
      `>>>` a logical shift. */
  function Mix(state: bv32): bv32 {
    var t1 := (state ^ (state >> 15)) * (state | 1);
    var t2 := t1 ^ (t1 + (t1 ^ (t1 >> 7)) * (t1 | 61));
    t2 ^ (t2 >> 14)
  }

  /** Seeds that differ by a multiple of 2^32 give the same generator. */
  lemma SeedBitsPeriodic(seed: int, k: int)
    ensures SeedBits(seed + k * TwoTo32) == SeedBits(seed)
  {
    assert (seed + k * TwoTo32) % TwoTo32 == seed % TwoTo32;
  }

  /** Reference outputs: the first two draws of `mulberry32(1)` are
      0xa087eaf3 / 2^32 (about 0.6270739) and 0x00b349c9 / 2^32, and the first
      draw of `mulberry32(42)` is 0x99e1ef7c / 2^32. */
  lemma ReferenceDraws()
    ensures Mix(SeedBits(1) + Increment) == 0xa087eaf3
    ensures Mix(SeedBits(1) + Increment + Increment) == 0x00b349c9
    ensures Mix(SeedBits(42) + Increment) == 0x99e1ef7c
  {
    assert SeedBits(1) == 1;
    assert SeedBits(42) == 42;
  }

  /** The value `rng()` returns: the output divided by 2^32, a number in [0, 1).
      The division is exact in double precision. */
  function Fraction(u: bv32): (r: real)
    ensures 0.0 <= r < 1.0
  {
    (u as int) as real / (TwoTo32 as real)
  }

  /** Scaling a number in [0, 1) by a positive factor stays below the factor. */
  lemma ScaledBelow(r: real, k: real)
    requires 0.0 <= r < 1.0 && k > 0.0
    ensures 0.0 <= r * k < k
  {
    var d := 1.0 - r;
    assert d > 0.0;
    assert d * k > 0.0;
    assert k - r * k == d * k;
  }

  /** `Math.floor(r * (i + 1))`: the index Fisher-Yates swaps with index `i`.
      For `i + 1 < 2^21` the product is exact in double precision. */
  function SwapIndex(r: real, i: nat): (j: int)
    requires 0.0 <= r < 1.0
    ensures 0 <= j <= i
  {
    var k := (i + 1) as real;
    ScaledBelow(r, k);
    (r * k).Floor
  }

  /** The state of one generator: the closure's captured `seed`, modulo 2^32. */
  class Rng {
    var seed: bv32

    constructor (seed: int)
      ensures this.seed == SeedBits(seed)
    {
      this.seed := SeedBits(seed);
    }

    /** One call of the closure: advance the state, then mix it. */
    method Next() returns (r: real)
      modifies this
      ensures seed == old(seed) + Increment
      ensures r == Fraction(Mix(seed))
      ensures 0.0 <= r < 1.0
    {
      seed := seed + Increment;
      var t := Mix(seed);
      r := Fraction(t);
    }
  }
}
