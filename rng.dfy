/** An abstract, deterministic pseudo-random generator.

    The program seeds Python's `random.Random` with an integer and then draws
    from it. The generator itself (a Mersenne Twister) is not modelled: a
    `Source` gives, for a seed and a draw index, the raw value of that draw.
    Whatever the `Source`, the k-th draw of a generator seeded with `s` depends on
    `s` and `k` only, which is all that the codec's reproducibility rests on.

    A draw here is one call of `_randbelow` or `getrandbits(8)`, not one output
    of the Mersenne Twister: CPython's `_randbelow` rejection-samples and may
    consume several generator outputs in one call. `Random.drawn` counts calls.
 */
module Rng {

  /** Raw draw number `k` of a generator seeded with `seed`. */
  type Source = (int, nat) -> nat

  /** Draw `k`, reduced into `[0, bound)` (the shuffle's `_randbelow(bound)`). */
  function Below(source: Source, seed: int, k: nat, bound: nat): (j: nat)
    requires 0 < bound
    ensures j < bound
  {
    source(seed, k) % bound
  }

  /** Draw `k`, as eight random bits (`getrandbits(8)`). */
  function Byte(source: Source, seed: int, k: nat): bv8
  {
    (source(seed, k) % 256) as bv8
  }

  /** A seeded generator object: the only state it changes is how many draws
      have been taken so far. */
  class Random {
    const source: Source
    const seed: int
    var drawn: nat

    constructor (source: Source, seed: int)
      ensures this.source == source && this.seed == seed
      ensures drawn == 0
    {
      this.source := source;
      this.seed := seed;
      drawn := 0;
    }

    /** One uniform draw from `[0, n)`. */
    method RandBelow(n: nat) returns (j: nat)
      requires 0 < n
      modifies this
      ensures drawn == old(drawn) + 1
      ensures j == Below(source, seed, old(drawn), n) && j < n
    {
      j := Below(source, seed, drawn, n);
      drawn := drawn + 1;
    }

    /** One uniform byte. */
    method GetRandBits8() returns (b: bv8)
      modifies this
      ensures drawn == old(drawn) + 1
      ensures b == Byte(source, seed, old(drawn))
    {
      b := Byte(source, seed, drawn);
      drawn := drawn + 1;
    }
  }
}
