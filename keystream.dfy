/** `keystream_bytes(n, seed, channels)`: an `n x channels` matrix of random
    bytes drawn row-major (pixel, then channel) from a generator seeded with
    `seed + 0xFEED`.
 */
module Keystreams {
  import opened Rng
  import opened Arithmetic

  /** Added to the seed so that the keystream generator differs from the
      permutation generator. */
  const FEED_OFFSET: int := 0xFEED

  /** The seed of the keystream generator: `seed + 0xFEED`. */
  function KeystreamSeed(seed: int): int
  {
    seed + FEED_OFFSET
  }

  /** Row `i` of the keystream: draws `i * channels .. i * channels + channels - 1`. */
  function KeystreamRow(source: Source, seed: int, i: nat, channels: nat): seq<bv8>
  {
    seq(channels, c requires 0 <= c < channels => Byte(source, KeystreamSeed(seed), i * channels + c))
  }

  /** The matrix `keystream_bytes(n, seed, channels)` returns. */
  function Keystream(source: Source, n: nat, seed: int, channels: nat := 3): (ks: seq<seq<bv8>>)
    ensures |ks| == n && forall i :: 0 <= i < n ==> |ks[i]| == channels
  {
    seq(n, i requires 0 <= i < n => KeystreamRow(source, seed, i, channels))
  }

  /** Row-major fill: draw number `k` lands at pixel `k / channels`, channel
      `k % channels`, so the matrix holds exactly the first `n * channels`
      draws in enumeration order. */
  lemma KeystreamRowMajor(source: Source, n: nat, seed: int, channels: nat, k: nat)
    requires k < n * channels
    ensures 0 < channels && k / channels < n
    ensures Keystream(source, n, seed, channels)[k / channels][k % channels]
         == Byte(source, KeystreamSeed(seed), k)
  {
    var i, c := k / channels, k % channels;
    assert k == i * channels + c;
    MulCancelLess(i, n, channels);
  }

  /** Determinism: the keystream depends on nothing but the first
      `n * channels` draws of the generator seeded with `seed + 0xFEED`. */
  lemma KeystreamDeterministic(s1: Source, s2: Source, n: nat, seed: int, channels: nat)
    requires forall m :: 0 <= m < n * channels ==> s1(KeystreamSeed(seed), m) == s2(KeystreamSeed(seed), m)
    ensures Keystream(s1, n, seed, channels) == Keystream(s2, n, seed, channels)
  {
    forall i | 0 <= i < n
      ensures Keystream(s1, n, seed, channels)[i] == Keystream(s2, n, seed, channels)[i]
    {
      forall c | 0 <= c < channels
        ensures KeystreamRow(s1, seed, i, channels)[c] == KeystreamRow(s2, seed, i, channels)[c]
      {
        MulMonotone(i + 1, n, channels);
        assert (i + 1) * channels == i * channels + channels;
        var k := i * channels + c;
        assert s1(KeystreamSeed(seed), k) == s2(KeystreamSeed(seed), k);
        assert Byte(s1, KeystreamSeed(seed), k) == Byte(s2, KeystreamSeed(seed), k);
      }
    }
  }

  /** `keystream_bytes(n, seed, channels)` */
  method KeystreamBytes(source: Source, n: nat, seed: int, channels: nat := 3) returns (ks: seq<seq<bv8>>)
    ensures ks == Keystream(source, n, seed, channels)
  {
    var rng := new Random(source, KeystreamSeed(seed));
    var out := new bv8[n, channels];
    for i := 0 to n
      invariant rng.source == source && rng.seed == KeystreamSeed(seed)
      invariant rng.drawn == i * channels
      invariant forall i', c' :: 0 <= i' < i && 0 <= c' < channels ==>
                  out[i', c'] == Byte(source, KeystreamSeed(seed), i' * channels + c')
    {
      for c := 0 to channels
        invariant rng.drawn == i * channels + c
        invariant forall i', c' :: 0 <= i' < i && 0 <= c' < channels ==>
                    out[i', c'] == Byte(source, KeystreamSeed(seed), i' * channels + c')
        invariant forall c' :: 0 <= c' < c ==> out[i, c'] == Byte(source, KeystreamSeed(seed), i * channels + c')
      {
        out[i, c] := rng.GetRandBits8();
      }
      assert (i + 1) * channels == i * channels + channels;
    }
    ks := seq(n, i requires 0 <= i < n reads out =>
                seq(channels, c requires 0 <= c < channels reads out => out[i, c]));
    forall i | 0 <= i < n ensures ks[i] == KeystreamRow(source, seed, i, channels) {
    }
  }
}
