/** The pixel codec of `encrypt_image` and `decrypt_image`: flatten the RGBA
    raster, permute the pixels, XOR the colour channels with the keystream,
    reshape. Loading and saving the image file are not part of this model.
 */
module PixelCodec {
  import opened Rng
  import opened Permutations
  import opened Keystreams

  /** One pixel as loaded: the image is always converted to RGBA. */
  datatype Pixel = Pixel(r: bv8, g: bv8, b: bv8, a: bv8)

  /** Channels 0..2 (R, G, B) are masked; channel 3 (alpha) never is. */
  const MASKED_CHANNELS: nat := 3

  const BLACK := Pixel(0, 0, 0, 0)
  const WHITE := Pixel(255, 255, 255, 255)

  /** `n` placeholder pixels: a fresh buffer whose contents are never read. */
  function Blank(n: nat): seq<Pixel>
  {
    seq(n, _ => BLACK)
  }

  /** `ks` is an `n x 3` keystream matrix. */
  ghost predicate IsMask(ks: seq<seq<bv8>>, n: nat)
  {
    |ks| == n && forall i :: 0 <= i < n ==> |ks[i]| == MASKED_CHANNELS
  }

  /** `pixel[:3] ^= k` */
  function MaskPixel(p: Pixel, k: seq<bv8>): Pixel
    requires |k| == MASKED_CHANNELS
  {
    Pixel(p.r ^ k[0], p.g ^ k[1], p.b ^ k[2], p.a)
  }

  /** `pixels[:, :3] = np.bitwise_xor(pixels[:, :3], ks)` */
  function Mask(xs: seq<Pixel>, ks: seq<seq<bv8>>): (ys: seq<Pixel>)
    requires IsMask(ks, |xs|)
    ensures |ys| == |xs|
  {
    seq(|xs|, i requires 0 <= i < |xs| => MaskPixel(xs[i], ks[i]))
  }

  /** The keystream both directions use: `keystream_bytes(n, seed, channels=3)`. */
  function CodecKeystream(source: Source, n: nat, seed: int): (ks: seq<seq<bv8>>)
    ensures IsMask(ks, n)
  {
    Keystream(source, n, seed, MASKED_CHANNELS)
  }

  /** Masking never touches the alpha channel. */
  lemma MaskKeepsAlpha(xs: seq<Pixel>, ks: seq<seq<bv8>>, i: nat)
    requires IsMask(ks, |xs|) && i < |xs|
    ensures Mask(xs, ks)[i].a == xs[i].a
    ensures Mask(xs, ks)[i] == xs[i] <==> ks[i] == [0, 0, 0]
  {
    var p, k := xs[i], ks[i];
    if Mask(xs, ks)[i] == xs[i] {
      assert p.r ^ k[0] == p.r && p.g ^ k[1] == p.g && p.b ^ k[2] == p.b;
      assert k == [k[0], k[1], k[2]];
    }
  }

  /** XOR with the same keystream twice is the identity, position by position. */
  lemma MaskTwiceIsIdentity(xs: seq<Pixel>, ks: seq<seq<bv8>>)
    requires IsMask(ks, |xs|)
    ensures Mask(Mask(xs, ks), ks) == xs
  {
    forall i | 0 <= i < |xs| ensures Mask(Mask(xs, ks), ks)[i] == xs[i] {
      var p, k := xs[i], ks[i];
      assert (p.r ^ k[0]) ^ k[0] == p.r;
      assert (p.g ^ k[1]) ^ k[1] == p.g;
      assert (p.b ^ k[2]) ^ k[2] == p.b;
    }
  }

  /** The flat pixel buffer `encrypt_image` produces: gather by the
      permutation, then mask. */
  function Encrypt(source: Source, seed: int, pixels: seq<Pixel>): (out: seq<Pixel>)
    ensures |out| == |pixels|
  {
    var n := |pixels|;
    PermutationIsBijection(source, n, seed);
    Mask(Gather(pixels, Permutation(source, n, seed)), CodecKeystream(source, n, seed))
  }

  /** The flat pixel buffer `decrypt_image` produces, as written: unmask,
      then scatter through the inverse permutation (`original[inv] = pixels`). */
  function Decrypt(source: Source, seed: int, pixels: seq<Pixel>): (out: seq<Pixel>)
    ensures |out| == |pixels|
  {
    var n := |pixels|;
    var perm := Permutation(source, n, seed);
    PermutationIsBijection(source, n, seed);
    InverseIsInverse(perm);
    Scatter(Blank(n), Inverse(perm), Mask(pixels, CodecKeystream(source, n, seed)))
  }

  /** Decrypting as intended: unmask, then scatter through the permutation
      itself (`original[perm] = pixels`), which is the inverse of the gather. */
  function DecryptFixed(source: Source, seed: int, pixels: seq<Pixel>): (out: seq<Pixel>)
    ensures |out| == |pixels|
  {
    var n := |pixels|;
    PermutationIsBijection(source, n, seed);
    Scatter(Blank(n), Permutation(source, n, seed), Mask(pixels, CodecKeystream(source, n, seed)))
  }

  /** Position `i` of the ciphertext holds source pixel `perm[i]`, masked; its
      alpha is bit-identical to that pixel's. */
  lemma EncryptAt(source: Source, seed: int, pixels: seq<Pixel>, i: nat)
    requires i < |pixels|
    ensures var perm := Permutation(source, |pixels|, seed);
            && perm[i] < |pixels|
            && Encrypt(source, seed, pixels)[i]
               == MaskPixel(pixels[perm[i]], CodecKeystream(source, |pixels|, seed)[i])
            && Encrypt(source, seed, pixels)[i].a == pixels[perm[i]].a
  {
    PermutationIsBijection(source, |pixels|, seed);
  }

  /** As written, decrypting gathers through the permutation (the same
      direction encrypting uses) instead of undoing it, and keeps alpha. */
  lemma DecryptGathers(source: Source, seed: int, pixels: seq<Pixel>)
    ensures var perm := Permutation(source, |pixels|, seed);
            var unmasked := Mask(pixels, CodecKeystream(source, |pixels|, seed));
            && IsPermutation(perm, |pixels|)
            && Decrypt(source, seed, pixels) == Gather(unmasked, perm)
            && forall j :: 0 <= j < |pixels| ==> Decrypt(source, seed, pixels)[j].a == pixels[perm[j]].a
  {
    var n := |pixels|;
    var perm := Permutation(source, n, seed);
    PermutationIsBijection(source, n, seed);
    ScatterByInverseIsGather(Blank(n), perm, Mask(pixels, CodecKeystream(source, n, seed)));
  }

  /** As written, a round trip applies the permutation twice:
      `decrypt(encrypt(B))[j] == B[perm[perm[j]]]`. */
  lemma DecryptAfterEncrypt(source: Source, seed: int, pixels: seq<Pixel>)
    ensures var perm := Permutation(source, |pixels|, seed);
            && IsPermutation(perm, |pixels|)
            && Decrypt(source, seed, Encrypt(source, seed, pixels)) == Gather(Gather(pixels, perm), perm)
  {
    var n := |pixels|;
    var perm := Permutation(source, n, seed);
    PermutationIsBijection(source, n, seed);
    var ks := CodecKeystream(source, n, seed);
    MaskTwiceIsIdentity(Gather(pixels, perm), ks);
    DecryptGathers(source, seed, Encrypt(source, seed, pixels));
  }

  /** As written, the round trip holds when the permutation is an involution. */
  lemma RoundTripUnderInvolution(source: Source, seed: int, pixels: seq<Pixel>)
    requires IsInvolution(Permutation(source, |pixels|, seed))
    ensures Decrypt(source, seed, Encrypt(source, seed, pixels)) == pixels
  {
    DecryptAfterEncrypt(source, seed, pixels);
  }

  /** Images of at most two pixels always survive the round trip. */
  lemma RoundTripSmallImages(source: Source, seed: int, pixels: seq<Pixel>)
    requires |pixels| <= 2
    ensures Decrypt(source, seed, Encrypt(source, seed, pixels)) == pixels
  {
    PermutationIsBijection(source, |pixels|, seed);
    SmallPermutationsAreInvolutions(Permutation(source, |pixels|, seed), |pixels|);
    RoundTripUnderInvolution(source, seed, pixels);
  }

  /** An image that is black except for one white pixel at `j`. */
  function Spike(n: nat, j: nat): seq<Pixel>
  {
    seq(n, i => if i == j then WHITE else BLACK)
  }

  /** As written, wherever the permutation is not an involution some image
      does not survive the round trip. */
  lemma RoundTripNeedsInvolution(source: Source, seed: int, n: nat, j: nat)
    requires j < n
    requires var perm := Permutation(source, n, seed); perm[j] < n && perm[perm[j]] != j
    ensures Decrypt(source, seed, Encrypt(source, seed, Spike(n, j))) != Spike(n, j)
  {
    var xs := Spike(n, j);
    var perm := Permutation(source, n, seed);
    DecryptAfterEncrypt(source, seed, xs);
    assert Decrypt(source, seed, Encrypt(source, seed, xs))[j] == BLACK;
  }

  /** As written, every image of `n` pixels survives the round trip exactly
      when the permutation for `(n, seed)` is an involution. */
  lemma RoundTripIffInvolution(source: Source, seed: int, n: nat)
    ensures (forall xs :: |xs| == n ==> Decrypt(source, seed, Encrypt(source, seed, xs)) == xs)
            <==> IsInvolution(Permutation(source, n, seed))
  {
    var perm := Permutation(source, n, seed);
    PermutationIsBijection(source, n, seed);
    if IsInvolution(perm) {
      forall xs | |xs| == n ensures Decrypt(source, seed, Encrypt(source, seed, xs)) == xs {
        RoundTripUnderInvolution(source, seed, xs);
      }
    } else {
      var j :| 0 <= j < n && perm[perm[j]] != j;
      RoundTripNeedsInvolution(source, seed, n, j);
    }
  }

  /** A generator whose every draw is 0. */
  function ZeroSource(): Source
  {
    (seed: int, k: nat) => 0
  }

  /** With draws that are all 0, the shuffle of three elements is the 3-cycle
      `[1, 2, 0]`: step 2 swaps positions 2 and 0, step 1 positions 1 and 0. */
  lemma ZeroSourceThreeCycle(seed: int)
    ensures Permutation(ZeroSource(), 3, seed) == [1, 2, 0]
  {
    var src := ZeroSource();
    var s0: seq<nat> := [0, 1, 2];
    assert Range(3) == s0;
    var s1 := Swap(s0, 2, Below(src, seed, 0, 3));
    assert s1 == [2, 1, 0];
    var s2 := Swap(s1, 1, Below(src, seed, 1, 2));
    assert s2 == [1, 2, 0];
    assert ShuffleSteps(src, seed, 2, s2, 0) == s2;
  }

  /** With draws that are all 0, the keystream is all zero and masking is the
      identity. */
  lemma ZeroSourceMaskIsIdentity(seed: int, xs: seq<Pixel>)
    ensures Mask(xs, CodecKeystream(ZeroSource(), |xs|, seed)) == xs
  {
    var src, n := ZeroSource(), |xs|;
    var ks := CodecKeystream(src, n, seed);
    forall i | 0 <= i < n ensures Mask(xs, ks)[i] == xs[i] {
      var row := KeystreamRow(src, seed, i, MASKED_CHANNELS);
      assert ks[i] == row;
      forall c | 0 <= c < 3 ensures row[c] == 0 {
        assert row[c] == Byte(src, KeystreamSeed(seed), i * 3 + c);
      }
      assert row == [0, 0, 0];
      MaskKeepsAlpha(xs, ks, i);
    }
  }

  /** A concrete failing round trip: with draws that are all 0, encrypting
      `[A, B, C]` gives `[B, C, A]` and decrypting that gives `[C, A, B]`. */
  lemma ThreeCycleCounterexample(seed: int)
    ensures var a, b, c := Pixel(1, 0, 0, 255), Pixel(2, 0, 0, 255), Pixel(3, 0, 0, 255);
            && Encrypt(ZeroSource(), seed, [a, b, c]) == [b, c, a]
            && Decrypt(ZeroSource(), seed, [b, c, a]) == [c, a, b]
            && Decrypt(ZeroSource(), seed, Encrypt(ZeroSource(), seed, [a, b, c])) != [a, b, c]
  {
    var a, b, c := Pixel(1, 0, 0, 255), Pixel(2, 0, 0, 255), Pixel(3, 0, 0, 255);
    var src := ZeroSource();
    ZeroSourceThreeCycle(seed);
    var perm := Permutation(src, 3, seed);
    var g := Gather([a, b, c], perm);
    assert g == [b, c, a];
    ZeroSourceMaskIsIdentity(seed, g);
    assert Encrypt(src, seed, [a, b, c]) == [b, c, a];
    DecryptGathers(src, seed, [b, c, a]);
    ZeroSourceMaskIsIdentity(seed, [b, c, a]);
    assert Gather([b, c, a], perm) == [c, a, b];
  }

  /** The corrected decryption undoes encryption for every image and seed,
      and encryption undoes it in turn. */
  lemma DecryptFixedRoundTrip(source: Source, seed: int, pixels: seq<Pixel>)
    ensures DecryptFixed(source, seed, Encrypt(source, seed, pixels)) == pixels
    ensures Encrypt(source, seed, DecryptFixed(source, seed, pixels)) == pixels
  {
    var n := |pixels|;
    var perm := Permutation(source, n, seed);
    PermutationIsBijection(source, n, seed);
    var ks := CodecKeystream(source, n, seed);
    MaskTwiceIsIdentity(Gather(pixels, perm), ks);
    ScatterUndoesGather(Blank(n), perm, pixels);
    var unmasked := Mask(pixels, ks);
    ScatterUndoesGather(Blank(n), perm, unmasked);
    MaskTwiceIsIdentity(pixels, ks);
  }

  /** `permuted[:, :3] = np.bitwise_xor(permuted[:, :3], ks)`, in place. */
  method MaskInPlace(a: array<Pixel>, ks: seq<seq<bv8>>)
    requires IsMask(ks, a.Length)
    modifies a
    ensures a[..] == Mask(old(a[..]), ks)
  {
    for i := 0 to a.Length
      invariant forall k :: 0 <= k < i ==> a[k] == MaskPixel(old(a[k]), ks[k])
      invariant forall k :: i <= k < a.Length ==> a[k] == old(a[k])
    {
      a[i] := MaskPixel(a[i], ks[i]);
    }
  }

  /** The pixel logic of `encrypt_image` on the flattened buffer. */
  method EncryptPixels(source: Source, seed: int, pixels: seq<Pixel>) returns (out: seq<Pixel>)
    ensures out == Encrypt(source, seed, pixels)
  {
    var n := |pixels|;
    var perm := MakePermutation(source, n, seed);
    var permuted := new Pixel[n](i requires 0 <= i < n => pixels[perm[i]]);
    assert permuted[..] == Gather(pixels, perm);
    var ks := KeystreamBytes(source, n, seed, MASKED_CHANNELS);
    MaskInPlace(permuted, ks);
    out := permuted[..];
  }

  /** The pixel logic of `decrypt_image` on the flattened buffer, as written. */
  method DecryptPixels(source: Source, seed: int, pixels: seq<Pixel>) returns (out: seq<Pixel>)
    ensures out == Decrypt(source, seed, pixels)
  {
    var n := |pixels|;
    var ks := KeystreamBytes(source, n, seed, MASKED_CHANNELS);
    var buffer := new Pixel[n](i requires 0 <= i < n => pixels[i]);
    assert buffer[..] == pixels;
    MaskInPlace(buffer, ks);
    var perm := MakePermutation(source, n, seed);
    var inv := InversePermutation(perm);
    out := ScatterPixels(inv, buffer[..]);
  }

  /** `original = np.empty_like(pixels); original[idx] = pixels` */
  method ScatterPixels(idx: seq<nat>, pixels: seq<Pixel>) returns (out: seq<Pixel>)
    requires IsPermutation(idx, |pixels|)
    ensures out == Scatter(Blank(|pixels|), idx, pixels)
  {
    var n := |pixels|;
    var original := new Pixel[n];
    ghost var base := original[..];
    for i := 0 to n
      invariant original[..] == ScatterUpTo(base, idx, pixels, i)
    {
      original[idx[i]] := pixels[i];
    }
    out := original[..];
    ScatterAnyBase(base, Blank(n), idx, pixels);
  }
}
