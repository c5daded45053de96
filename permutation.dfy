/** Seed-driven pixel permutations: `make_permutation` (a Fisher-Yates shuffle
    of `[0, n)`) and `inverse_permutation` (a scatter of `[0, n)` through the
    permutation), with the scatter write that decrypting also uses.
 */
module Permutations {
  import opened Rng

  /** `list(range(n))` */
  function Range(n: nat): seq<nat>
  {
    seq(n, i requires 0 <= i < n => i as nat)
  }

  /** `n` zeros: a fresh buffer whose contents are never read. */
  function Zeros(n: nat): seq<nat>
  {
    seq(n, _ => 0)
  }

  /** `p` is a bijection on `[0, n)`: every index in range appears exactly once. */
  ghost predicate IsPermutation(p: seq<nat>, n: nat)
  {
    && |p| == n
    && (forall i :: 0 <= i < n ==> p[i] < n)
    && (forall i, j :: 0 <= i < j < n ==> p[i] != p[j])
    && (forall v :: 0 <= v < n ==> v in p)
  }

  /** `p` undoes itself: `p[p[j]] == j` everywhere. */
  ghost predicate IsInvolution(p: seq<nat>)
  {
    forall j :: 0 <= j < |p| ==> p[j] < |p| && p[p[j]] == j
  }

  /** `s` with positions `i` and `j` exchanged (`x[i], x[j] = x[j], x[i]`). */
  function Swap<T>(s: seq<T>, i: nat, j: nat): seq<T>
    requires i < |s| && j < |s|
  {
    s[i := s[j]][j := s[i]]
  }

  /** Steps `i, i-1, ..., 1` of the Fisher-Yates shuffle: step `i` swaps position
      `i` with a draw from `[0, i]`; the draws are numbered from `k` on. */
  function ShuffleSteps<T>(source: Source, seed: int, k: nat, s: seq<T>, i: nat): (r: seq<T>)
    requires i < |s|
    ensures |r| == |s|
    decreases i
  {
    if i == 0 then s
    else ShuffleSteps(source, seed, k + 1, Swap(s, i, Below(source, seed, k, i + 1)), i - 1)
  }

  /** `rng.shuffle(s)` on a generator that has already made `k` draws. */
  function Shuffled<T>(source: Source, seed: int, k: nat, s: seq<T>): (r: seq<T>)
    ensures |r| == |s|
  {
    if |s| == 0 then s else ShuffleSteps(source, seed, k, s, |s| - 1)
  }

  /** The permutation `make_permutation(n, seed)` returns. */
  function Permutation(source: Source, n: nat, seed: int): seq<nat>
  {
    Shuffled(source, seed, 0, Range(n))
  }

  lemma RangeIsPermutation(n: nat)
    ensures IsPermutation(Range(n), n)
  {
    forall v | 0 <= v < n ensures v in Range(n) {
      assert Range(n)[v] == v;
    }
  }

  lemma SwapPreservesPermutation(p: seq<nat>, n: nat, i: nat, j: nat)
    requires IsPermutation(p, n) && i < n && j < n
    ensures IsPermutation(Swap(p, i, j), n)
  {
    var q := Swap(p, i, j);
    forall k | 0 <= k < n
      ensures q[k] == p[if k == i then j else if k == j then i else k]
    {
    }
    forall v | 0 <= v < n ensures v in q {
      assert v in p;
      var m :| 0 <= m < n && p[m] == v;
      var m' := if m == i then j else if m == j then i else m;
      assert q[m'] == v;
    }
  }

  lemma {:induction false} ShuffleStepsPermutes(source: Source, seed: int, k: nat, p: seq<nat>, n: nat, i: nat)
    requires IsPermutation(p, n) && i < n
    ensures IsPermutation(ShuffleSteps(source, seed, k, p, i), n)
    decreases i
  {
    if i > 0 {
      var j := Below(source, seed, k, i + 1);
      SwapPreservesPermutation(p, n, i, j);
      ShuffleStepsPermutes(source, seed, k + 1, Swap(p, i, j), n, i - 1);
    }
  }

  /** Whatever the draws, `make_permutation(n, seed)` is a bijection on `[0, n)`. */
  lemma PermutationIsBijection(source: Source, n: nat, seed: int)
    ensures IsPermutation(Permutation(source, n, seed), n)
  {
    RangeIsPermutation(n);
    if n > 0 {
      ShuffleStepsPermutes(source, seed, 0, Range(n), n, n - 1);
    }
  }

  lemma {:induction false} ShuffleStepsUsesDraws<T>(s1: Source, s2: Source, seed: int, k: nat, s: seq<T>, i: nat)
    requires i < |s|
    requires forall m :: k <= m < k + i ==> s1(seed, m) == s2(seed, m)
    ensures ShuffleSteps(s1, seed, k, s, i) == ShuffleSteps(s2, seed, k, s, i)
    decreases i
  {
    if i > 0 {
      assert s1(seed, k) == s2(seed, k);
      ShuffleStepsUsesDraws(s1, s2, seed, k + 1, Swap(s, i, Below(s1, seed, k, i + 1)), i - 1);
    }
  }

  /** Determinism: the permutation depends on nothing but the first `n - 1`
      draws of the generator seeded with `seed`. */
  lemma PermutationDeterministic(s1: Source, s2: Source, n: nat, seed: int)
    requires forall m :: 0 <= m && m + 1 < n ==> s1(seed, m) == s2(seed, m)
    ensures Permutation(s1, n, seed) == Permutation(s2, n, seed)
  {
    if n > 0 {
      ShuffleStepsUsesDraws(s1, s2, seed, 0, Range(n), n - 1);
    }
  }

  /** Any permutation of at most two elements is an involution. */
  lemma SmallPermutationsAreInvolutions(p: seq<nat>, n: nat)
    requires IsPermutation(p, n) && n <= 2
    ensures IsInvolution(p)
  {
    if n == 2 {
      assert p == [0, 1] || p == [1, 0];
    }
  }

  /** `rng.shuffle(a)`: Fisher-Yates, in place. */
  method Shuffle(a: array<nat>, rng: Random)
    modifies a, rng
    ensures rng.drawn == old(rng.drawn) + (if a.Length == 0 then 0 else a.Length - 1)
    ensures a[..] == Shuffled(rng.source, rng.seed, old(rng.drawn), old(a[..]))
  {
    if a.Length == 0 {
      return;
    }
    var i := a.Length - 1;
    while i > 0
      invariant 0 <= i < a.Length
      invariant rng.drawn == old(rng.drawn) + (a.Length - 1 - i)
      invariant ShuffleSteps(rng.source, rng.seed, rng.drawn, a[..], i)
             == Shuffled(rng.source, rng.seed, old(rng.drawn), old(a[..]))
    {
      ghost var before := a[..];
      var j := rng.RandBelow(i + 1);
      a[i], a[j] := a[j], a[i];
      assert a[..] == Swap(before, i, j);
      i := i - 1;
    }
  }

  /** `make_permutation(n, seed)` */
  method MakePermutation(source: Source, n: nat, seed: int) returns (perm: seq<nat>)
    ensures perm == Permutation(source, n, seed)
    ensures IsPermutation(perm, n)
  {
    var rng := new Random(source, seed);
    var a := new nat[n](i requires 0 <= i < n => i as nat);
    assert a[..] == Range(n);
    Shuffle(a, rng);
    perm := a[..];
    PermutationIsBijection(source, n, seed);
  }

  /** The gather `xs[idx]`: position `i` receives `xs[idx[i]]`. */
  function Gather<T>(xs: seq<T>, idx: seq<nat>): (g: seq<T>)
    requires forall i :: 0 <= i < |idx| ==> idx[i] < |xs|
    ensures |g| == |idx|
    ensures forall i :: 0 <= i < |g| ==> g[i] in xs
  {
    seq(|idx|, i requires 0 <= i < |idx| => xs[idx[i]])
  }

  /** The element-wise scatter `out[idx] = xs` into the buffer `base`, written as
      the assignments `out[idx[0]] = xs[0]`, ..., `out[idx[k-1]] = xs[k-1]`. */
  function ScatterUpTo<T>(base: seq<T>, idx: seq<nat>, xs: seq<T>, k: nat): (r: seq<T>)
    requires k <= |idx| == |xs|
    requires forall i :: 0 <= i < |idx| ==> idx[i] < |base|
    ensures |r| == |base|
    decreases k
  {
    if k == 0 then base
    else ScatterUpTo(base, idx, xs, k - 1)[idx[k - 1] := xs[k - 1]]
  }

  function Scatter<T>(base: seq<T>, idx: seq<nat>, xs: seq<T>): (r: seq<T>)
    requires |idx| == |xs|
    requires forall i :: 0 <= i < |idx| ==> idx[i] < |base|
    ensures |r| == |base|
  {
    ScatterUpTo(base, idx, xs, |xs|)
  }

  lemma {:induction false} ScatterUpToAt<T>(base: seq<T>, idx: seq<nat>, xs: seq<T>, k: nat, i: nat)
    requires IsPermutation(idx, |base|) && |xs| == |base|
    requires i < k <= |xs|
    ensures ScatterUpTo(base, idx, xs, k)[idx[i]] == xs[i]
    decreases k
  {
    if i < k - 1 {
      ScatterUpToAt(base, idx, xs, k - 1, i);
    }
  }

  /** Scattering through a permutation puts `xs[i]` at `idx[i]`. */
  lemma ScatterAt<T>(base: seq<T>, idx: seq<nat>, xs: seq<T>, i: nat)
    requires IsPermutation(idx, |base|) && |xs| == |base| && i < |xs|
    ensures Scatter(base, idx, xs)[idx[i]] == xs[i]
  {
    ScatterUpToAt(base, idx, xs, |xs|, i);
  }

  /** Scattering through a permutation writes every position, so what the
      buffer held before (`np.empty_like`) does not matter. */
  lemma ScatterAnyBase<T>(b1: seq<T>, b2: seq<T>, idx: seq<nat>, xs: seq<T>)
    requires |b1| == |b2| == |xs| && IsPermutation(idx, |xs|)
    ensures Scatter(b1, idx, xs) == Scatter(b2, idx, xs)
  {
    forall j | 0 <= j < |xs| ensures Scatter(b1, idx, xs)[j] == Scatter(b2, idx, xs)[j] {
      assert j in idx;
      var i :| 0 <= i < |idx| && idx[i] == j;
      ScatterAt(b1, idx, xs, i);
      ScatterAt(b2, idx, xs, i);
    }
  }

  /** The permutation `inverse_permutation(perm)` returns: `inv[perm] = arange(n)`. */
  function Inverse(perm: seq<nat>): (inv: seq<nat>)
    requires IsPermutation(perm, |perm|)
    ensures |inv| == |perm|
  {
    Scatter(Zeros(|perm|), perm, Range(|perm|))
  }

  /** The inverse undoes the permutation on both sides and is itself a permutation. */
  lemma InverseIsInverse(perm: seq<nat>)
    requires IsPermutation(perm, |perm|)
    ensures IsPermutation(Inverse(perm), |perm|)
    ensures forall i :: 0 <= i < |perm| ==> Inverse(perm)[perm[i]] == i
    ensures forall j :: 0 <= j < |perm| ==> perm[Inverse(perm)[j]] == j
  {
    var n, inv := |perm|, Inverse(perm);
    forall i | 0 <= i < n ensures inv[perm[i]] == i {
      ScatterAt(Zeros(n), perm, Range(n), i);
    }
    forall j | 0 <= j < n ensures inv[j] < n && perm[inv[j]] == j {
      assert j in perm;
      var i :| 0 <= i < n && perm[i] == j;
      assert inv[perm[i]] == i;
    }
    forall i | 0 <= i < n ensures i in inv {
      assert inv[perm[i]] == i;
    }
    forall j1, j2 | 0 <= j1 < j2 < n ensures inv[j1] != inv[j2] {
      assert perm[inv[j1]] == j1 && perm[inv[j2]] == j2;
    }
  }

  /** `inverse_permutation(perm)` */
  method InversePermutation(perm: seq<nat>) returns (inv: seq<nat>)
    requires IsPermutation(perm, |perm|)
    ensures inv == Inverse(perm)
    ensures IsPermutation(inv, |perm|)
    ensures forall i :: 0 <= i < |perm| ==> inv[perm[i]] == i
    ensures forall j :: 0 <= j < |perm| ==> perm[inv[j]] == j
  {
    var n := |perm|;
    var a := new nat[n];
    ghost var base := a[..];
    for i := 0 to n
      invariant a[..] == ScatterUpTo(base, perm, Range(n), i)
    {
      a[perm[i]] := i;
    }
    inv := a[..];
    ScatterAnyBase(base, Zeros(n), perm, Range(n));
    InverseIsInverse(perm);
  }

  /** Scattering through the inverse of `perm` is the same as gathering
      through `perm` itself: `out[inv] = xs` gives `out[j] == xs[perm[j]]`. */
  lemma ScatterByInverseIsGather<T>(base: seq<T>, perm: seq<nat>, xs: seq<T>)
    requires IsPermutation(perm, |perm|) && |base| == |xs| == |perm|
    ensures IsPermutation(Inverse(perm), |perm|)
    ensures Scatter(base, Inverse(perm), xs) == Gather(xs, perm)
  {
    InverseIsInverse(perm);
    var inv := Inverse(perm);
    forall j | 0 <= j < |perm| ensures Scatter(base, inv, xs)[j] == xs[perm[j]] {
      ScatterAt(base, inv, xs, perm[j]);
    }
  }

  /** Scattering through `perm` undoes gathering through `perm`, in both orders. */
  lemma ScatterUndoesGather<T>(base: seq<T>, perm: seq<nat>, xs: seq<T>)
    requires IsPermutation(perm, |perm|) && |base| == |xs| == |perm|
    ensures Scatter(base, perm, Gather(xs, perm)) == xs
    ensures Gather(Scatter(base, perm, xs), perm) == xs
  {
    var g := Gather(xs, perm);
    forall j | 0 <= j < |xs| ensures Scatter(base, perm, g)[j] == xs[j] {
      assert j in perm;
      var i :| 0 <= i < |perm| && perm[i] == j;
      ScatterAt(base, perm, g, i);
    }
    forall i | 0 <= i < |xs| ensures Scatter(base, perm, xs)[perm[i]] == xs[i] {
      ScatterAt(base, perm, xs, i);
    }
  }
}
