/**
 * Evaluating and verifying a proof of work: EthashAux::eval and Ethash::quickVerifySeal /
 * verifySeal (libethashseal/EthashAux.cpp:250-259, libethashseal/Ethash.cpp:238-284).
 */
module EthashSeal {
  import opened Nibbles
  import opened EthashWords
  import opened EthashDag
  import EthashMemory
  import Rlp

  const EPOCH_LIMIT: int := 30000 * 2048

  /** What a header holds for its seal; headerHash is the hash without the seal fields. */
  datatype Seal = Seal(number: nat, headerHash: Digest32, nonce: nat, mixHash: Digest32, boundary: Digest32)

  /** The value that evaluation falls back on: the largest result there is, and a zero mix hash. */
  function Fallback(): Value {
    Value(seq(32, _ => 255), seq(32, _ => 0))
  }

  /** A hash is a big-endian number. */
  function Number(h: Digest32): nat {
    Rlp.FromBigEndian(h)
  }

  lemma {:induction false} LargestNumber(a: Bytes, b: Bytes)
    requires |a| == |b| && forall i :: 0 <= i < |b| ==> b[i] == 255
    ensures Rlp.FromBigEndian(a) <= Rlp.FromBigEndian(b)
  {
    if a != [] {
      LargestNumber(a[..|a| - 1], b[..|b| - 1]);
    }
  }

  /** FixedHash's order, byte by byte, is the numeric one. */
  method HashLess(a: Digest32, b: Digest32) returns (less: bool)
    ensures less <==> Number(a) < Number(b)
  {
    for i := 0 to 32
      invariant a[..i] == b[..i]
    {
      if a[i] < b[i] {
        EthashMemory.FirstDifference(a, b, i);
        return true;
      } else if a[i] > b[i] {
        EthashMemory.FirstDifference(b, a, i);
        return false;
      }
      assert a[..i + 1] == b[..i + 1];
    }
    assert a == a[..32] == b[..32] == b;
    return false;
  }

  /** Equal numbers of the same length are equal byte strings. */
  lemma {:induction false} NumberInjective(a: Bytes, b: Bytes)
    requires |a| == |b| && Rlp.FromBigEndian(a) == Rlp.FromBigEndian(b)
    ensures a == b
  {
    if a != [] {
      var last := |a| - 1;
      NumberInjective(a[..last], b[..last]);
      assert a == a[..last] + [a[last]] && b == b[..last] + [b[last]];
    }
  }

  /** FixedHash's <=, the equality or the order. */
  method HashAtMost(a: Digest32, b: Digest32) returns (ok: bool)
    ensures ok <==> Number(a) <= Number(b)
  {
    var less := HashLess(a, b);
    if !less && Number(a) <= Number(b) {
      NumberInjective(a, b);
    }
    return a == b || less;
  }

  /** FullAllocation::compute; None is its exception. */
  method FullCompute(k: Primitives, full: array<Word>, fullSize: nat, header: Digest32, nonce: nat)
      returns (r: Option<Value>)
    requires Pages(fullSize) != 0 && full.Length == fullSize / 4
    ensures r == if fullSize % 32 != 0 then None
                 else Some(HashOver(k, FullDag(full[..]), Pages(fullSize), header, nonce))
  {
    r := EthashMemory.Hash(k, full, [], fullSize, header, nonce);
  }

  /** LightAllocation::compute; None is its exception. */
  method LightCompute(k: Primitives, cache: seq<Node>, fullSize: nat, header: Digest32, nonce: nat)
      returns (r: Option<Value>)
    requires Pages(fullSize) != 0 && ParentCount(cache) != 0
    ensures r == if fullSize % 32 != 0 then None
                 else Some(HashOver(k, LightDag(k, cache), Pages(fullSize), header, nonce))
  {
    r := EthashMemory.Hash(k, null, cache, fullSize, header, nonce);
  }

  /**
   * EthashAux::eval: the filled data set when it is loaded, else the cache, else (when no cache
   * can be had, or the light computation throws) a fixed value. None is the exception of the
   * full computation, which is not caught.
   */
  method Eval(k: Primitives, full: array?<Word>, cache: Option<seq<Node>>, fullSize: nat, header: Digest32, nonce: nat)
    returns (r: Option<Value>)
    requires Pages(fullSize) != 0
    requires full != null ==> full.Length == fullSize / 4
    requires cache.Some? ==> ParentCount(cache.value) != 0
    ensures full != null ==>
              r == if fullSize % 32 != 0 then None
                   else Some(HashOver(k, FullDag(full[..]), Pages(fullSize), header, nonce))
    ensures full == null ==>
              r == Some(if fullSize % 32 != 0 || cache.None? then Fallback()
                        else HashOver(k, LightDag(k, cache.value), Pages(fullSize), header, nonce))
  {
    if full != null {
      r := FullCompute(k, full, fullSize, header, nonce);
      return;
    }
    if cache.Some? {
      r := LightCompute(k, cache.value, fullSize, header, nonce);
      if r.Some? {
        return;
      }
    }
    return Some(Fallback());
  }

  lemma WholeWords(fullSize: nat)
    requires fullSize % 128 == 0
    ensures fullSize % 32 == 0
  {
    assert fullSize == 32 * (4 * (fullSize / 128));
  }

  /**
   * What evaluation gives: the fallback when neither is to be had, else the value over the data set made
   * from the cache.
   */
  ghost function Evaluated(k: Primitives, absent: bool, made: seq<Node>, fullSize: nat, header: Digest32,
                           nonce: nat): Value
    requires Pages(fullSize) != 0 && ParentCount(made) != 0
  {
    if absent then Fallback() else HashOver(k, LightDag(k, made), Pages(fullSize), header, nonce)
  }

  /** Which of the two is loaded does not show in the result, provided the data set was filled from the cache. */
  method EvalFilled(k: Primitives, full: array?<Word>, cache: Option<seq<Node>>, fullSize: nat, header: Digest32,
                    nonce: nat, ghost made: seq<Node>)
    returns (v: Value)
    requires fullSize % 128 == 0 && 0 < Pages(fullSize) < 0x8000_0000 && ParentCount(made) != 0
    requires full != null ==> Filled(k, full[..], fullSize, made)
    requires cache.Some? ==> cache.value == made
    ensures v == Evaluated(k, full == null && cache.None?, made, fullSize, header, nonce)
  {
    WholeWords(fullSize);
    if full != null {
      FullEqualsLight(k, full[..], fullSize, made, header, nonce);
    }
    var r := Eval(k, full, cache, fullSize, header, nonce);
    v := r.value;
  }

  /** The condition of the slow check on an evaluated value. */
  predicate Slow(v: Value, s: Seal) {
    Number(v.result) <= Number(s.boundary) && v.mixHash == s.mixHash
  }

  predicate Quick(k: Primitives, s: Seal) {
    s.number < EPOCH_LIMIT && Number(QuickHash(k, s.headerHash, s.nonce, s.mixHash)) <= Number(s.boundary)
  }

  /** The slow condition implies the quick one below the last epoch, for the fallback value too. */
  lemma SlowImpliesQuick(k: Primitives, v: Value, s: Seal)
    requires v == Fallback() || v.result == QuickHash(k, s.headerHash, s.nonce, v.mixHash)
    requires s.number < EPOCH_LIMIT && Slow(v, s)
    ensures Quick(k, s)
  {
    if v == Fallback() {
      LargestNumber(QuickHash(k, s.headerHash, s.nonce, s.mixHash), Fallback().result);
    }
  }

  method QuickVerifySeal(k: Primitives, s: Seal) returns (ok: bool)
    ensures ok <==> Quick(k, s)
  {
    if s.number >= EPOCH_LIMIT {
      return false;
    }
    var h := EthashMemory.ComputeQuickHash(k, s.headerHash, s.nonce, s.mixHash, FullDag([]), 0);
    ok := EthashMemory.CheckDifficulty(h, s.boundary);
  }

  /**
   * verifySeal: the quick check first, then the evaluation. The quick check never turns away a
   * seal that the evaluation would pass, so below the last epoch the verdict is the evaluation's
   * alone: the same with the full data set as with the cache, and also when neither can be had.
   */
  method VerifySeal(k512: Bytes -> Digest64, k256: Bytes -> Digest32, full: array?<Word>, cache: Option<seq<Node>>,
                    fullSize: nat, s: Seal, ghost made: seq<Node>)
    returns (ok: bool)
    requires fullSize % 128 == 0 && 0 < Pages(fullSize) < 0x8000_0000 && ParentCount(made) != 0
    requires full != null ==> Filled(Libethash(k512, k256), full[..], fullSize, made)
    requires cache.Some? ==> cache.value == made
    ensures var none := full == null && cache.None?;
            ok <==> s.number < EPOCH_LIMIT
                    && Slow(Evaluated(Libethash(k512, k256), none, made, fullSize, s.headerHash, s.nonce), s)
  {
    var k := Libethash(k512, k256);
    ghost var v := Evaluated(k, full == null && cache.None?, made, fullSize, s.headerHash, s.nonce);
    if s.number < EPOCH_LIMIT && Slow(v, s) {
      SlowImpliesQuick(k, v, s);
    }
    var pre := QuickVerifySeal(k, s);
    if !pre {
      return false;
    }
    var r := EvalFilled(k, full, cache, fullSize, s.headerHash, s.nonce, made);
    var small := HashAtMost(r.result, s.boundary);
    return small && r.mixHash == s.mixHash;
  }
}
