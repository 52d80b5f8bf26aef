/**
 * libethash: the data set, filled in place from a cache, and the hash computed either from the
 * filled data set or item by item from the cache (libethash/internal.c:93-310). Keccak is a pair
 * of arbitrary functions with outputs of the right size.
 */
module EthashDag {
  import opened Nibbles
  import opened EthashWords

  type Node = n: seq<Word> | |n| == 16 witness seq(16, _ => 0)
  type Mix = m: seq<Word> | |m| == 32 witness seq(32, _ => 0)
  type Digest32 = b: Bytes | |b| == 32 witness seq(32, _ => 0)
  type Digest64 = b: Bytes | |b| == 64 witness seq(64, _ => 0)

  /**
   * What the algorithm is built from: the two Keccak functions, the FNV step and exclusive or.
   * Nothing below depends on which functions these are; EthashWords gives the last two.
   */
  datatype Primitives = Primitives(
    k512: Bytes -> Digest64,
    k256: Bytes -> Digest32,
    fnv: (Word, Word) -> Word,
    xor: (Word, Word) -> Word)

  /** The primitives libethash uses, around any implementation of Keccak. */
  function Libethash(k512: Bytes -> Digest64, k256: Bytes -> Digest32): Primitives {
    Primitives(k512, k256, (x, y) => Fnv(x, y), (x, y) => XorWord(x, y))
  }

  datatype Value = Value(result: Digest32, mixHash: Digest32)

  const DATASET_PARENTS: Word := 256
  const ACCESSES: Word := 64

  // ---------------------------------------------------------------- specification

  /** SHA3_512 of the bytes of a node, read back as words. */
  function Rehash(k: Primitives, n: Node): Node {
    ToWords(k.k512(ToBytes(n)))
  }

  function FnvStep(k: Primitives, x: Word, y: Word): Word {
    k.fnv(x, y)
  }

  function Blend(k: Primitives, a: Node, b: Node): Node {
    seq(16, w requires 0 <= w < 16 => FnvStep(k, a[w], b[w]))
  }

  /** Number of cache nodes, cut to 32 bits. */
  function ParentCount(cache: seq<Node>): Word {
    |cache| % 0x1_0000_0000
  }

  /** The cache node a word selects. */
  function Selected(cache: seq<Node>, x: Word): Node
    requires ParentCount(cache) != 0
  {
    cache[x % ParentCount(cache)]
  }

  function ParentAt(k: Primitives, cache: seq<Node>, index: Word, i: Word, n: Node): Node
    requires ParentCount(cache) != 0
  {
    Selected(cache, k.fnv(k.xor(index, i), n[i % 16]))
  }

  /** The node after i of its parents have been blended in. */
  function Parents(k: Primitives, cache: seq<Node>, index: Word, first: Node, i: Word): Node
    requires ParentCount(cache) != 0
  {
    if i == 0 then first
    else
      var n := Parents(k, cache, index, first, i - 1);
      Blend(k, n, ParentAt(k, cache, index, i - 1, n))
  }

  function FirstParent(k: Primitives, cache: seq<Node>, index: Word): Node
    requires ParentCount(cache) != 0
  {
    var init := Selected(cache, index);
    init[0 := k.xor(init[0], index)]
  }

  /** Item number `index` of the data set. */
  function DagItem(k: Primitives, cache: seq<Node>, index: Word): Node
    requires ParentCount(cache) != 0
  {
    Rehash(k, Parents(k, cache, index, Rehash(k, FirstParent(k, cache, index)), DATASET_PARENTS))
  }

  /** Number of 128-byte pages and of 64-byte nodes of a data set, each cut to 32 bits. */
  function Pages(fullSize: nat): Word {
    fullSize / 128 % 0x1_0000_0000
  }

  function NodeCount(fullSize: nat): Word {
    fullSize / 64 % 0x1_0000_0000
  }

  /** The data-set node that half n of page `index` is, in 32-bit arithmetic. */
  function NodeIndex(index: Word, n: nat): Word {
    (2 * index + n) % 0x1_0000_0000
  }

  function NonceBytes(nonce: nat): (r: Bytes)
    ensures |r| == 8
  {
    ToBytes([nonce % 0x1_0000_0000, nonce / 0x1_0000_0000 % 0x1_0000_0000])
  }

  function Seed(k: Primitives, header: Digest32, nonce: nat): Digest64 {
    k.k512(header + NonceBytes(nonce))
  }

  function PageAt(k: Primitives, pages: Word, s0: Word, i: Word, mix: Mix): (r: Word)
    requires pages != 0
    ensures r < pages
  {
    k.fnv(k.xor(s0, i), mix[i % 32]) % pages
  }

  function PageWord(dag: Word -> Node, index: Word, w: nat): Word {
    dag(NodeIndex(index, w / 16))[w % 16]
  }

  /** Word w of the mix takes word w of the page. */
  function MixPage(k: Primitives, dag: Word -> Node, index: Word, mix: Mix): Mix {
    seq(32, w requires 0 <= w < 32 => FnvStep(k, mix[w], PageWord(dag, index, w)))
  }

  /** The mix after i accesses to the data set. */
  function MixAfter(k: Primitives, dag: Word -> Node, pages: Word, s0: Word, start: Mix, i: Word): Mix
    requires pages != 0
  {
    if i == 0 then start
    else
      var mix := MixAfter(k, dag, pages, s0, start, i - 1);
      MixPage(k, dag, PageAt(k, pages, s0, i - 1, mix), mix)
  }

  function Reduction(k: Primitives, a: Word, b: Word, c: Word, d: Word): Word {
    k.fnv(k.fnv(k.fnv(a, b), c), d)
  }

  /** Every four words of the mix folded into one. */
  function Compressed(k: Primitives, mix: Mix): (r: seq<Word>)
    ensures |r| == 8
  {
    seq(8, j requires 0 <= j < 8 => Reduction(k, mix[4 * j], mix[4 * j + 1], mix[4 * j + 2], mix[4 * j + 3]))
  }

  /** Copies of the seed hash, as many as the mix has nodes. */
  function Replicated(s: Node): Mix {
    seq(32, w requires 0 <= w < 32 => s[w % 16])
  }

  function MixHash(k: Primitives, dag: Word -> Node, pages: Word, header: Digest32, nonce: nat): Digest32
    requires pages != 0
  {
    var s: Node := ToWords(Seed(k, header, nonce));
    ToBytes(Compressed(k, MixAfter(k, dag, pages, s[0], Replicated(s), ACCESSES)))
  }

  function QuickHash(k: Primitives, header: Digest32, nonce: nat, mixHash: Digest32): Digest32 {
    k.k256(Seed(k, header, nonce) + mixHash)
  }

  /** The ethash value over a data set given item by item. */
  function HashOver(k: Primitives, dag: Word -> Node, pages: Word, header: Digest32, nonce: nat): Value
    requires pages != 0
  {
    var mixHash := MixHash(k, dag, pages, header, nonce);
    Value(QuickHash(k, header, nonce, mixHash), mixHash)
  }

  /** A data set that computes each item from the cache, and one that reads a word array. */
  function LightDag(k: Primitives, cache: seq<Node>): Word -> Node
    requires ParentCount(cache) != 0
  {
    i => DagItem(k, cache, i)
  }

  function FullDag(words: seq<Word>): Word -> Node {
    (i: Word) => if 16 * i + 16 <= |words| then words[16 * i..16 * i + 16] else seq(16, _ => 0)
  }

  // ---------------------------------------------------------------- agreement of data sets

  lemma {:induction false} MixAgrees(k: Primitives, d: Word -> Node, e: Word -> Node, pages: Word, s0: Word,
                                     start: Mix, i: Word)
    requires pages != 0
    requires forall p: Word, n :: p < pages && 0 <= n < 2 ==> d(NodeIndex(p, n)) == e(NodeIndex(p, n))
    ensures MixAfter(k, d, pages, s0, start, i) == MixAfter(k, e, pages, s0, start, i)
  {
    if i != 0 {
      MixAgrees(k, d, e, pages, s0, start, i - 1);
      var p := PageAt(k, pages, s0, i - 1, MixAfter(k, d, pages, s0, start, i - 1));
      assert d(NodeIndex(p, 0)) == e(NodeIndex(p, 0)) && d(NodeIndex(p, 1)) == e(NodeIndex(p, 1));
    }
  }

  ghost predicate FilledTo(k: Primitives, words: seq<Word>, count: int, cache: seq<Node>)
    requires ParentCount(cache) != 0
  {
    forall n: Word :: n < count ==> 16 * n + 16 <= |words| && words[16 * n..16 * n + 16] == DagItem(k, cache, n)
  }

  /** Filled says what ComputeFullData leaves behind: the first NodeCount nodes are the items. */
  ghost predicate Filled(k: Primitives, words: seq<Word>, fullSize: nat, cache: seq<Node>)
    requires ParentCount(cache) != 0
  {
    |words| == fullSize / 4 && FilledTo(k, words, NodeCount(fullSize), cache)
  }

  /** Every node the hash can ask for is one that the fill has written. */
  predicate InBounds(fullSize: nat) {
    forall p: Word, n :: p < Pages(fullSize) && 0 <= n < 2 ==> NodeIndex(p, n) < NodeCount(fullSize)
  }

  /** A remainder is known by the multiple it leaves. */
  lemma Remainder(x: int, q: int, r: int)
    requires x == q * 0x1_0000_0000 + r && 0 <= r < 0x1_0000_0000
    ensures x % 0x1_0000_0000 == r
  {
  }

  lemma DoubleMod(t: nat)
    ensures var p := t % 0x1_0000_0000;
            2 * t % 0x1_0000_0000 == if p < 0x8000_0000 then 2 * p else 2 * p - 0x1_0000_0000
  {
    var p, q := t % 0x1_0000_0000, t / 0x1_0000_0000;
    if p < 0x8000_0000 {
      Remainder(2 * t, 2 * q, 2 * p);
    } else {
      Remainder(2 * t, 2 * q + 1, 2 * p - 0x1_0000_0000);
    }
  }

  lemma Counts(fullSize: nat)
    requires fullSize % 128 == 0
    ensures NodeCount(fullSize) == 2 * Pages(fullSize) - if Pages(fullSize) < 0x8000_0000 then 0 else 0x1_0000_0000
    ensures fullSize < 0x40_0000_0000 ==> Pages(fullSize) < 0x8000_0000
  {
    var t := fullSize / 128;
    assert fullSize == 128 * t;
    assert fullSize / 64 == 2 * t;
    DoubleMod(t);
  }

  /**
   * The 32-bit truncations decide when that is so: exactly when the page count, cut to 32 bits,
   * is below 2^31. Every size below 256 GiB meets it.
   */
  lemma InBoundsIff(fullSize: nat)
    requires fullSize % 128 == 0
    ensures InBounds(fullSize) <==> Pages(fullSize) < 0x8000_0000
    ensures fullSize < 0x40_0000_0000 ==> InBounds(fullSize)
  {
    Counts(fullSize);
    if Pages(fullSize) >= 0x8000_0000 {
      assert NodeIndex(0x7fff_ffff, 1) == 0xffff_ffff;
    }
  }

  /** The full and the light computation agree whenever the data set was filled in bounds. */
  lemma FullEqualsLight(k: Primitives, words: seq<Word>, fullSize: nat, cache: seq<Node>, header: Digest32, nonce: nat)
    requires ParentCount(cache) != 0
    requires fullSize % 128 == 0 && Pages(fullSize) != 0 && Pages(fullSize) < 0x8000_0000
    requires Filled(k, words, fullSize, cache)
    ensures HashOver(k, FullDag(words), Pages(fullSize), header, nonce)
         == HashOver(k, LightDag(k, cache), Pages(fullSize), header, nonce)
  {
    InBoundsIff(fullSize);
    var full, light := FullDag(words), LightDag(k, cache);
    forall p: Word, n | p < Pages(fullSize) && 0 <= n < 2
      ensures full(NodeIndex(p, n)) == light(NodeIndex(p, n))
    {
      var i := NodeIndex(p, n);
      assert i < NodeCount(fullSize);
    }
    var s: Node := ToWords(Seed(k, header, nonce));
    MixAgrees(k, full, light, Pages(fullSize), s[0], Replicated(s), ACCESSES);
  }
}
