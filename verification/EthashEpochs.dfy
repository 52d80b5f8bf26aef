/**
 * Seed hashes and the epochs they stand for, with the two caches that EthashAux keeps
 * (libethashseal/EthashAux.cpp:68-111, libethash/internal.c:312-320). The digest type H, its
 * zero and the hash function are arbitrary.
 */
module EthashEpochs {
  import opened Nibbles

  const EPOCH_LENGTH: nat := 30000
  const EPOCH_COUNT: nat := 2048

  /** The seed hash of an epoch: zero, hashed once for each epoch before it. */
  function SeedOf<H>(sha: H -> H, zero: H, epoch: nat): H {
    if epoch == 0 then zero else sha(SeedOf(sha, zero, epoch - 1))
  }

  /** No two of the epochs up to the last one share a seed hash. */
  ghost predicate Distinct<H>(sha: H -> H, zero: H) {
    forall i: nat, j: nat :: i < j <= EPOCH_COUNT ==> SeedOf(sha, zero, i) != SeedOf(sha, zero, j)
  }

  /** ethash_get_seedhash. */
  method GetSeedHash<H>(sha: H -> H, zero: H, number: nat) returns (r: H)
    ensures r == SeedOf(sha, zero, number / EPOCH_LENGTH)
  {
    r := zero;
    var i := 0;
    while i < number / EPOCH_LENGTH
      invariant i <= number / EPOCH_LENGTH && r == SeedOf(sha, zero, i)
    {
      r := sha(r);
      i := i + 1;
    }
  }

  ghost predicate Correct<H(!new)>(sha: H -> H, zero: H, epochs: map<H, nat>) {
    forall h :: h in epochs ==> 0 < epochs[h] <= EPOCH_COUNT && h == SeedOf(sha, zero, epochs[h])
  }

  /** The walk of EthashAux::number, adding each epoch that it reaches to the map. */
  method Search<H(==, !new)>(sha: H -> H, zero: H, seed: H, epochs: map<H, nat>)
      returns (epoch: nat, noted: map<H, nat>)
    requires Correct(sha, zero, epochs)
    ensures Correct(sha, zero, noted) && epoch <= EPOCH_COUNT
    ensures epoch < EPOCH_COUNT ==> SeedOf(sha, zero, epoch) == seed
    ensures forall e: nat :: e < epoch ==> SeedOf(sha, zero, e) != seed
    ensures forall e: nat :: 0 < e <= epoch ==> SeedOf(sha, zero, e) in noted
  {
    epoch, noted := 0, epochs;
    var h := zero;
    while h != seed && epoch < EPOCH_COUNT
      invariant epoch <= EPOCH_COUNT && h == SeedOf(sha, zero, epoch)
      invariant forall e: nat :: e < epoch ==> SeedOf(sha, zero, e) != seed
      invariant forall e: nat :: 0 < e <= epoch ==> SeedOf(sha, zero, e) in noted
      invariant Correct(sha, zero, noted)
      decreases EPOCH_COUNT - epoch
    {
      epoch := epoch + 1;
      h := sha(h);
      noted := noted[h := epoch];
    }
  }

  class EthashAux<H(==, !new)> {
    const sha: H -> H
    const zero: H
    var seedHashes: seq<H>
    var epochs: map<H, nat>

    ghost predicate Valid()
      reads this
    {
      (forall i :: 0 <= i < |seedHashes| ==> seedHashes[i] == SeedOf(sha, zero, i)) &&
      Correct(sha, zero, epochs)
    }

    constructor (sha: H -> H, zero: H)
      ensures Valid() && this.sha == sha && this.zero == zero
      ensures seedHashes == [] && epochs == map[]
    {
      this.sha, this.zero := sha, zero;
      seedHashes, epochs := [], map[];
    }

    /** The seed hash of a block's epoch; a miss extends the cache from its last entry on. */
    method SeedHash(number: nat) returns (r: H)
      requires Valid()
      modifies this`seedHashes
      ensures Valid() && r == SeedOf(sha, zero, number / EPOCH_LENGTH)
      ensures old(seedHashes) <= seedHashes
      ensures |seedHashes| ==
              if number / EPOCH_LENGTH < |old(seedHashes)| then |old(seedHashes)| else number / EPOCH_LENGTH + 1
    {
      var epoch := number / EPOCH_LENGTH;
      if epoch >= |seedHashes| {
        var ret, n := zero, 0;
        if seedHashes != [] {
          ret, n := seedHashes[|seedHashes| - 1], |seedHashes| - 1;
        }
        var grown := seedHashes + seq(epoch + 1 - |seedHashes|, _ => zero);
        while n <= epoch
          invariant n <= epoch + 1 && |grown| == epoch + 1
          invariant n == epoch + 1 || ret == SeedOf(sha, zero, n)
          invariant |seedHashes| <= n || n == |seedHashes| - 1
          invariant forall i :: 0 <= i < n ==> grown[i] == SeedOf(sha, zero, i)
        {
          grown := grown[n := ret];
          n := n + 1;
          ret := sha(ret);
        }
        seedHashes := grown;
      }
      r := seedHashes[epoch];
    }

    /**
     * The first block of the epoch with that seed hash, None for the exception. A miss walks the
     * epochs from zero, noting each that it passes, the one after the last included.
     */
    method Number(seed: H) returns (r: Option<nat>)
      requires Valid()
      modifies this`epochs
      ensures Valid()
      ensures seed in old(epochs) ==> r == Some(old(epochs)[seed] * EPOCH_LENGTH) && epochs == old(epochs)
      ensures seed !in old(epochs) ==>
                (r.None? <==> forall e: nat :: e < EPOCH_COUNT ==> SeedOf(sha, zero, e) != seed)
      ensures r.Some? ==> r.value % EPOCH_LENGTH == 0 && r.value <= EPOCH_COUNT * EPOCH_LENGTH
      ensures r.Some? ==> SeedOf(sha, zero, r.value / EPOCH_LENGTH) == seed
      ensures r.None? ==> forall e: nat :: 0 < e <= EPOCH_COUNT ==> SeedOf(sha, zero, e) in epochs
    {
      if seed in epochs {
        return Some(epochs[seed] * EPOCH_LENGTH);
      }
      var epoch, noted := Search(sha, zero, seed, epochs);
      epochs := noted;
      if epoch == EPOCH_COUNT {
        return None;
      }
      return Some(epoch * EPOCH_LENGTH);
    }

    /** From a block to its seed hash and back: the first block of its epoch, whatever is cached. */
    method RoundTrip(number: nat) returns (r: Option<nat>)
      requires Valid() && Distinct(sha, zero) && number < EPOCH_LENGTH * EPOCH_COUNT
      modifies this
      ensures Valid() && r == Some(number - number % EPOCH_LENGTH)
    {
      var seed := SeedHash(number);
      r := Number(seed);
      var e := number / EPOCH_LENGTH;
      assert r.Some? by {
        assert e < EPOCH_COUNT && SeedOf(sha, zero, e) == seed;
      }
      var f := r.value / EPOCH_LENGTH;
      assert f == e by {
        assert f <= EPOCH_COUNT && SeedOf(sha, zero, f) == SeedOf(sha, zero, e);
      }
    }

    /**
     * The seed hash of the epoch after the last is refused by a fresh cache and accepted by the
     * cache that the refusal leaves behind: the answer depends on what was asked before.
     */
    method RefusedThenAccepted() returns (first: Option<nat>, second: Option<nat>)
      requires Valid() && Distinct(sha, zero) && epochs == map[]
      modifies this
      ensures first == None && second == Some(EPOCH_COUNT * EPOCH_LENGTH)
    {
      var seed := GetSeedHash(sha, zero, EPOCH_COUNT * EPOCH_LENGTH);
      assert seed == SeedOf(sha, zero, EPOCH_COUNT);
      first := Number(seed);
      second := Number(seed);
    }
  }
}
