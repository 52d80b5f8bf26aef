/**
 * libethash's loops over words in memory, each proved against the functions of EthashDag:
 * ethash_calculate_dag_item, ethash_compute_full_data, ethash_hash, ethash_quick_hash and
 * ethash_check_difficulty.
 */
module EthashMemory {
  import opened Nibbles
  import opened EthashWords
  import opened EthashDag
  import Rlp

  /** s with the words from `at` on replaced by n. */
  function Patch(s: seq<Word>, at: nat, n: seq<Word>): (r: seq<Word>)
    requires at + |n| <= |s|
    ensures |r| == |s| && r[at..at + |n|] == n
  {
    s[..at] + n + s[at + |n|..]
  }

  lemma PatchPatch(s: seq<Word>, at: nat, n: seq<Word>, m: seq<Word>)
    requires |n| == |m| && at + |n| <= |s|
    ensures Patch(Patch(s, at, n), at, m) == Patch(s, at, m)
  {
  }

  lemma PatchTail(s: seq<Word>, at: nat, n: seq<Word>)
    requires at + |n| <= |s|
    ensures Patch(s, at, n)[at + |n|..] == s[at + |n|..]
    ensures s[at..][|n|..] == s[at + |n|..]
  {
  }

  /** memcpy of words, also the way a digest is stored. */
  method Store(mem: array<Word>, at: nat, n: seq<Word>)
    requires at + |n| <= mem.Length
    modifies mem
    ensures mem[..] == Patch(old(mem[..]), at, n)
  {
    for w := 0 to |n|
      invariant forall j :: 0 <= j < mem.Length ==>
                              mem[j] == if at <= j < at + w then n[j - at] else old(mem[j])
    {
      mem[at + w] := n[w];
    }
  }

  /** The FNV step of every word of a node with the same word of another. */
  method BlendInto(k: Primitives, mem: array<Word>, at: nat, n: Node)
    requires at + 16 <= mem.Length
    modifies mem
    ensures forall j :: 0 <= j < mem.Length ==>
                          mem[j] == if at <= j < at + 16 then FnvStep(k, old(mem[j]), n[j - at]) else old(mem[j])
  {
    for w := 0 to 16
      invariant forall j :: 0 <= j < mem.Length ==>
                              mem[j] == if at <= j < at + w then FnvStep(k, old(mem[j]), n[j - at]) else old(mem[j])
    {
      mem[at + w] := k.fnv(mem[at + w], n[w]);
    }
  }

  /** SHA3_512 of a node over itself. */
  method RehashInto(k: Primitives, mem: array<Word>, at: nat)
    requires at + 16 <= mem.Length
    modifies mem
    ensures mem[..] == Patch(old(mem[..]), at, Rehash(k, old(mem[at..at + 16])))
  {
    Store(mem, at, ToWords(k.k512(ToBytes(mem[at..at + 16]))));
  }

  /** One parent, chosen by what the node holds by then. */
  method BlendParent(k: Primitives, ret: array<Word>, at: nat, nodeIndex: Word, cache: seq<Node>, i: Word)
    requires at + 16 <= ret.Length && ParentCount(cache) != 0
    modifies ret
    ensures var n := old(ret[at..at + 16]);
            ret[..] == Patch(old(ret[..]), at, Blend(k, n, ParentAt(k, cache, nodeIndex, i, n)))
  {
    ghost var n := ret[at..at + 16];
    var parent := Selected(cache, k.fnv(k.xor(nodeIndex, i), ret[at + i % 16]));
    BlendInto(k, ret, at, parent);
    assert parent == ParentAt(k, cache, nodeIndex, i, n);
  }

  /** The loop over the parents of a node. */
  method BlendParents(k: Primitives, ret: array<Word>, at: nat, nodeIndex: Word, cache: seq<Node>)
    requires at + 16 <= ret.Length && ParentCount(cache) != 0
    modifies ret
    ensures ret[..] == Patch(old(ret[..]), at, Parents(k, cache, nodeIndex, old(ret[at..at + 16]), DATASET_PARENTS))
  {
    ghost var before, first := ret[..], ret[at..at + 16];
    var i: Word := 0;
    while i != DATASET_PARENTS
      invariant i <= DATASET_PARENTS
      invariant ret[..] == Patch(before, at, Parents(k, cache, nodeIndex, first, i))
      decreases DATASET_PARENTS - i
    {
      ghost var n := Parents(k, cache, nodeIndex, first, i);
      assert ret[at..at + 16] == n;
      BlendParent(k, ret, at, nodeIndex, cache, i);
      PatchPatch(before, at, n, Parents(k, cache, nodeIndex, first, i + 1));
      i := i + 1;
    }
  }

  method CalculateDagItem(k: Primitives, ret: array<Word>, at: nat, nodeIndex: Word, cache: seq<Node>)
    requires at + 16 <= ret.Length && ParentCount(cache) != 0
    modifies ret
    ensures ret[..] == Patch(old(ret[..]), at, DagItem(k, cache, nodeIndex))
  {
    ghost var before := ret[..];
    Store(ret, at, Selected(cache, nodeIndex));
    ret[at] := k.xor(ret[at], nodeIndex);
    ghost var first := FirstParent(k, cache, nodeIndex);
    assert ret[..] == Patch(before, at, first);
    RehashInto(k, ret, at);
    PatchPatch(before, at, first, Rehash(k, first));
    BlendParents(k, ret, at, nodeIndex, cache);
    ghost var n := Parents(k, cache, nodeIndex, Rehash(k, first), DATASET_PARENTS);
    PatchPatch(before, at, Rehash(k, first), n);
    RehashInto(k, ret, at);
    PatchPatch(before, at, n, Rehash(k, n));
  }

  lemma FilledStep(k: Primitives, words: seq<Word>, n: Word, cache: seq<Node>)
    requires ParentCount(cache) != 0 && 16 * n + 16 <= |words|
    requires FilledTo(k, words, n, cache)
    ensures FilledTo(k, Patch(words, 16 * n, DagItem(k, cache, n)), n + 1, cache)
  {
    var next := Patch(words, 16 * n, DagItem(k, cache, n));
    forall j: Word | j < n + 1
      ensures 16 * j + 16 <= |next| && next[16 * j..16 * j + 16] == DagItem(k, cache, j)
    {
      if j < n {
        assert next[16 * j..16 * j + 16] == words[16 * j..16 * j + 16];
      }
    }
  }

  /** The callback is asked at every hundredth of the way, and at node n it asks to stop. */
  predicate Stops(callback: Option<Word -> bool>, max: Word, n: Word) {
    callback.Some? && max >= 100 && n % (max / 100) == 0 && callback.value(n)
  }

  /** The fill: item after item, each written straight into its place, until the callback stops it. */
  method FillNodes(k: Primitives, mem: array<Word>, max: Word, cache: seq<Node>, callback: Option<Word -> bool>)
      returns (n: Word)
    requires 16 * max <= mem.Length && ParentCount(cache) != 0
    requires callback.Some? ==> max == 0 || max >= 100
    modifies mem
    ensures n <= max && (n < max ==> Stops(callback, max, n)) && forall j: Word :: j < n ==> !Stops(callback, max, j)
    ensures FilledTo(k, mem[..], n, cache)
    ensures mem[16 * n..] == old(mem[16 * n..])
  {
    n := 0;
    while n != max
      invariant n <= max && forall j: Word :: j < n ==> !Stops(callback, max, j)
      invariant FilledTo(k, mem[..], n, cache)
      invariant mem[16 * n..] == old(mem[16 * n..])
      decreases max - n
    {
      if Stops(callback, max, n) {
        return;
      }
      FillOne(k, mem, n, cache);
      n := n + 1;
    }
  }

  method FillOne(k: Primitives, mem: array<Word>, n: Word, cache: seq<Node>)
    requires 16 * n + 16 <= mem.Length && ParentCount(cache) != 0 && FilledTo(k, mem[..], n, cache)
    modifies mem
    ensures FilledTo(k, mem[..], n + 1, cache)
    ensures mem[16 * n + 16..] == old(mem[16 * n..])[16..]
  {
    FilledStep(k, mem[..], n, cache);
    ghost var before := mem[..];
    CalculateDagItem(k, mem, 16 * n, n, cache);
    PatchTail(before, 16 * n, DagItem(k, cache, n));
  }

  lemma NodesFit(fullSize: nat)
    ensures 16 * NodeCount(fullSize) <= fullSize / 4
    ensures fullSize % 128 == 0 ==> fullSize % 64 == 0
  {
    var nodes := fullSize / 64;
    assert NodeCount(fullSize) <= nodes;
    assert 64 * nodes <= fullSize;
    if fullSize % 128 == 0 {
      assert fullSize == 64 * (2 * (fullSize / 128));
    }
  }

  /**
   * ethash_compute_full_data: refuses sizes that are no whole number of pages, else fills the data
   * set unless the callback stops it. With a callback the source divides by a hundredth of the
   * node count, which must not be zero.
   */
  method ComputeFullData(k: Primitives, mem: array<Word>, fullSize: nat, cache: seq<Node>,
                         callback: Option<Word -> bool>)
    returns (ok: bool)
    requires mem.Length == fullSize / 4 && ParentCount(cache) != 0
    requires callback.Some? ==> NodeCount(fullSize) == 0 || NodeCount(fullSize) >= 100
    modifies mem
    ensures ok <==> fullSize % 128 == 0
                    && forall n: Word :: n < NodeCount(fullSize) ==> !Stops(callback, NodeCount(fullSize), n)
    ensures ok ==> Filled(k, mem[..], fullSize, cache)
    ensures ok ==> var max: int := 16 * NodeCount(fullSize); max <= mem.Length && mem[max..] == old(mem[..])[max..]
    ensures fullSize % 128 != 0 ==> mem[..] == old(mem[..])
  {
    NodesFit(fullSize);
    if fullSize % 128 != 0 || fullSize % 64 != 0 {
      return false;
    }
    var n := FillNodes(k, mem, NodeCount(fullSize), cache, callback);
    return n == NodeCount(fullSize);
  }

  /** What the hash reads its nodes from. */
  ghost function Source(k: Primitives, full: array?<Word>, cache: seq<Node>): Word -> Node
    requires full == null ==> ParentCount(cache) != 0
    reads full
  {
    if full != null then FullDag(full[..]) else LightDag(k, cache)
  }

  /** One node of the data set: read from the filled array, or computed from the cache. */
  method DagNode(k: Primitives, full: array?<Word>, cache: seq<Node>, i: Word) returns (n: Node)
    requires full != null ==> 16 * i + 16 <= full.Length
    requires full == null ==> ParentCount(cache) != 0
    ensures n == Source(k, full, cache)(i)
  {
    if full != null {
      n := full[16 * i..16 * i + 16];
    } else {
      var tmp := new Word[16];
      CalculateDagItem(k, tmp, 0, i, cache);
      n := tmp[..];
    }
  }

  /** The in-place folding of the 32 mix words into the first eight of them. */
  method CompressMix(k: Primitives, sMix: array<Word>)
    requires sMix.Length == 48
    modifies sMix
    ensures sMix[..16] == old(sMix[..16])
    ensures sMix[16..24] == Compressed(k, old(sMix[16..48]))
  {
    ghost var mix: Mix := sMix[16..48];
    var w := 0;
    while w != 32
      invariant 0 <= w <= 32 && w % 4 == 0
      invariant sMix[..16] == old(sMix[..16])
      invariant forall j :: 0 <= j < w / 4 ==> sMix[16 + j] == Compressed(k, mix)[j]
      invariant forall j :: w <= j < 32 ==> sMix[16 + j] == mix[j]
      decreases 32 - w
    {
      var reduction := sMix[16 + w];
      reduction := k.fnv(reduction, sMix[16 + w + 1]);
      reduction := k.fnv(reduction, sMix[16 + w + 2]);
      reduction := k.fnv(reduction, sMix[16 + w + 3]);
      assert reduction == Compressed(k, mix)[w / 4];
      sMix[16 + w / 4] := reduction;
      w := w + 4;
    }
  }

  /** The seed hash, and the mix made of copies of it. */
  method StartMix(k: Primitives, sMix: array<Word>, header: Digest32, nonce: nat)
    requires sMix.Length == 48
    modifies sMix
    ensures sMix[..16] == ToWords(Seed(k, header, nonce))
    ensures sMix[16..48] == Replicated(sMix[..16])
  {
    ghost var s: Node := ToWords(Seed(k, header, nonce));
    Store(sMix, 0, ToWords(k.k512(header + NonceBytes(nonce))));
    assert sMix[..16] == s;
    Replicate(sMix, s);
  }

  method Replicate(sMix: array<Word>, ghost s: Node)
    requires sMix.Length == 48 && sMix[..16] == s
    modifies sMix
    ensures sMix[..16] == s && sMix[16..48] == Replicated(s)
  {
    for w := 0 to 32
      invariant sMix[..16] == s
      invariant forall j :: 0 <= j < w ==> sMix[16 + j] == Replicated(s)[j]
    {
      sMix[16 + w] := sMix[w % 16];
    }
  }

  lemma PageHalves(dag: Word -> Node, index: Word, w: nat)
    requires w < 32
    ensures PageWord(dag, index, w) == if w < 16 then dag(NodeIndex(index, 0))[w] else dag(NodeIndex(index, 1))[w - 16]
  {
  }

  /** The two nodes of a page blended into the two halves of the mix. */
  method MixInPage(k: Primitives, sMix: array<Word>, full: array?<Word>, cache: seq<Node>, index: Word)
    requires sMix.Length == 48 && full != sMix
    requires full != null ==>
             16 * NodeIndex(index, 0) + 16 <= full.Length && 16 * NodeIndex(index, 1) + 16 <= full.Length
    requires full == null ==> ParentCount(cache) != 0
    modifies sMix
    ensures sMix[..16] == old(sMix[..16])
    ensures sMix[16..48] == MixPage(k, Source(k, full, cache), index, old(sMix[16..48]))
  {
    ghost var dag := Source(k, full, cache);
    var a := DagNode(k, full, cache, NodeIndex(index, 0));
    BlendInto(k, sMix, 16, a);
    assert Source(k, full, cache) == dag;
    var b := DagNode(k, full, cache, NodeIndex(index, 1));
    BlendInto(k, sMix, 32, b);
    assert Source(k, full, cache) == dag;
    forall w | 0 <= w < 32
      ensures sMix[16 + w] == FnvStep(k, old(sMix[16 + w]), PageWord(dag, index, w))
    {
      PageHalves(dag, index, w);
    }
  }

  lemma PageInBounds(pages: Word, index: Word)
    requires index < pages
    ensures NodeIndex(index, 0) < 2 * pages && NodeIndex(index, 1) < 2 * pages
  {
  }

  /** One access: the page is chosen by the mix so far, and no read leaves the array. */
  method AccessOnce(k: Primitives, sMix: array<Word>, full: array?<Word>, cache: seq<Node>, pages: Word, i: Word)
    requires sMix.Length == 48 && full != sMix && pages != 0
    requires full != null ==> 32 * pages <= full.Length
    requires full == null ==> ParentCount(cache) != 0
    modifies sMix
    ensures sMix[..16] == old(sMix[..16])
    ensures var mix := old(sMix[16..48]);
            sMix[16..48] == MixPage(k, Source(k, full, cache), PageAt(k, pages, old(sMix[0]), i, mix), mix)
  {
    var index := k.fnv(k.xor(sMix[0], i), sMix[16 + i % 32]) % pages;
    PageInBounds(pages, index);
    MixInPage(k, sMix, full, cache, index);
  }

  /** All the accesses to the data set. */
  method Access(k: Primitives, sMix: array<Word>, full: array?<Word>, cache: seq<Node>, pages: Word)
    requires sMix.Length == 48 && full != sMix && pages != 0
    requires full != null ==> 32 * pages <= full.Length
    requires full == null ==> ParentCount(cache) != 0
    modifies sMix
    ensures sMix[..16] == old(sMix[..16])
    ensures sMix[16..48] == MixAfter(k, Source(k, full, cache), pages, old(sMix[0]), old(sMix[16..48]), ACCESSES)
  {
    ghost var s, start := sMix[..16], sMix[16..48];
    ghost var dag := Source(k, full, cache);
    var i: Word := 0;
    while i != ACCESSES
      invariant i <= ACCESSES
      invariant sMix[..16] == s
      invariant sMix[16..48] == MixAfter(k, dag, pages, s[0], start, i)
      decreases ACCESSES - i
    {
      assert sMix[0] == sMix[..16][0];
      AccessOnce(k, sMix, full, cache, pages, i);
      i := i + 1;
    }
  }

  /** The 96 bytes of the final hash: the seed hash as it was, then the compressed mix. */
  lemma FinalBytes(seed: Digest64, words: seq<Word>)
    requires |words| == 24 && words[..16] == ToWords(seed)
    ensures ToBytes(words) == seed + ToBytes(words[16..])
  {
    BytesOfWords(seed);
    ToBytesConcat(words[..16], words[16..]);
    assert words == words[..16] + words[16..];
  }

  /** Compression and the final Keccak hash. */
  method Finish(k: Primitives, sMix: array<Word>, ghost seed: Digest64) returns (v: Value)
    requires sMix.Length == 48 && sMix[..16] == ToWords(seed)
    modifies sMix
    ensures v.mixHash == ToBytes(Compressed(k, old(sMix[16..48])))
    ensures v.result == k.k256(seed + v.mixHash)
  {
    CompressMix(k, sMix);
    var mixHash := ToBytes(sMix[16..24]);
    FinalBytes(seed, sMix[..24]);
    v := Value(k.k256(ToBytes(sMix[..24])), mixHash);
  }

  /**
   * ethash_hash, over the filled data set when there is one and from the cache when there is
   * none. Its size test is weaker than the one of the fill: a multiple of 32 passes.
   */
  method Hash(k: Primitives, full: array?<Word>, cache: seq<Node>, fullSize: nat, header: Digest32, nonce: nat)
    returns (r: Option<Value>)
    requires Pages(fullSize) != 0
    requires full != null ==> full.Length == fullSize / 4
    requires full == null ==> ParentCount(cache) != 0
    ensures r == if fullSize % 32 != 0 then None
                 else Some(HashOver(k, Source(k, full, cache), Pages(fullSize), header, nonce))
  {
    if fullSize % 32 != 0 {
      return None;
    }
    var sMix := new Word[48];
    StartMix(k, sMix, header, nonce);
    assert sMix[..16][0] == sMix[0];
    Access(k, sMix, full, cache, Pages(fullSize));
    var v := Finish(k, sMix, Seed(k, header, nonce));
    return Some(v);
  }

  /** memcpy of bytes. */
  method StoreBytes(buf: array<Byte>, at: nat, b: Bytes)
    requires at + |b| <= buf.Length
    modifies buf
    ensures buf[..at] == old(buf[..at]) && buf[at..at + |b|] == b && buf[at + |b|..] == old(buf[at + |b|..])
  {
    for i := 0 to |b|
      invariant forall j :: 0 <= j < buf.Length ==> buf[j] == if at <= j < at + i then b[j - at] else old(buf[j])
    {
      buf[at + i] := b[i];
    }
  }

  /**
   * ethash_quick_hash: header and nonce go into the front of a buffer, their hash over both, and the
   * mix hash behind it. Given the mix hash of a full or light computation, the result is that
   * computation's result.
   */
  method ComputeQuickHash(k: Primitives, header: Digest32, nonce: nat, mixHash: Digest32, ghost dag: Word -> Node,
                          ghost pages: Word)
    returns (r: Digest32)
    ensures pages != 0 && HashOver(k, dag, pages, header, nonce).mixHash == mixHash ==>
              r == HashOver(k, dag, pages, header, nonce).result
    ensures r == QuickHash(k, header, nonce, mixHash)
  {
    var buf := new Byte[96];
    StoreBytes(buf, 0, header);
    StoreBytes(buf, 32, NonceBytes(nonce));
    assert buf[..32] == header && buf[32..40] == NonceBytes(nonce);
    assert buf[..40] == buf[..32] + buf[32..40];
    StoreBytes(buf, 0, k.k512(buf[..40]));
    StoreBytes(buf, 64, mixHash);
    assert buf[..64] == Seed(k, header, nonce) && buf[64..96] == mixHash;
    assert buf[..] == buf[..64] + buf[64..96];
    r := k.k256(buf[..]);
  }

  /** A byte-wise comparison from the front decides the comparison as big-endian numbers. */
  lemma {:induction false} FirstDifference(a: Bytes, b: Bytes, i: nat)
    requires |a| == |b| && i < |a| && a[..i] == b[..i] && a[i] < b[i]
    ensures Rlp.FromBigEndian(a) < Rlp.FromBigEndian(b)
  {
    var last := |a| - 1;
    if i == last {
      assert a[..last] == b[..last];
    } else {
      assert a[..last][..i] == a[..i] && b[..last][..i] == b[..i];
      FirstDifference(a[..last], b[..last], i);
    }
  }

  /** ethash_check_difficulty: at most the boundary, both read as big-endian numbers. */
  method CheckDifficulty(hash: Digest32, boundary: Digest32) returns (ok: bool)
    ensures ok <==> Rlp.FromBigEndian(hash) <= Rlp.FromBigEndian(boundary)
  {
    for i := 0 to 32
      invariant hash[..i] == boundary[..i]
    {
      if hash[i] == boundary[i] {
        assert hash[..i + 1] == boundary[..i + 1];
        continue;
      }
      if hash[i] < boundary[i] {
        FirstDifference(hash, boundary, i);
      } else {
        FirstDifference(boundary, hash, i);
      }
      return hash[i] < boundary[i];
    }
    assert hash == hash[..32] == boundary[..32] == boundary;
    return true;
  }
}
