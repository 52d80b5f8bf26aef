/**
 * Nodes as bytes: the RLP and hex-prefix form in which the store really keeps them. The sizes the
 * trie code branches on are the lengths of these bytes, reading them back gives the node, and a
 * collision of node hashes is a collision of the underlying byte hash.
 */
module TrieBytes {
  import opened Nibbles
  import opened Rlp
  import opened TrieCommon
  import opened Trie
  import opened TrieInsert
  import opened TrieNode

  type Stored = Node<Bytes>

  function RefRlp(r: Ref<Bytes>): Item {
    match r
    case Empty => Data([])
    case Inline(n) => NodeRlp(n)
    case Digest(h) => Data(h)
  }

  function RefsRlp(refs: seq<Ref<Bytes>>): (r: seq<Item>)
    ensures |r| == |refs|
  {
    if refs == [] then [] else [RefRlp(refs[0])] + RefsRlp(refs[1..])
  }

  /** A node as an RLP item: a pair of key and value or reference, or seventeen entries. */
  function NodeRlp(n: Stored): Item {
    match n
    case NullNode => Data([])
    case LeafNode(key, val) => List([Data(HexPrefix(key, true)), Data(val)])
    case ExtNode(key, ref) => List([Data(HexPrefix(key, false)), RefRlp(ref)])
    case BranchNode(refs, val) => List(RefsRlp(refs) + [Data(val)])
  }

  function NodeBytes(n: Stored): Bytes {
    Encode(NodeRlp(n))
  }

  /** Digests have 32 bytes, inlined nodes are pairs or branches, and branches have sixteen references. */
  predicate Proper(n: Stored) {
    match n
    case NullNode => true
    case LeafNode(_, _) => true
    case ExtNode(_, ref) => ProperRef(ref)
    case BranchNode(refs, _) => |refs| == 16 && forall i :: 0 <= i < |refs| ==> ProperRef(refs[i])
  }

  predicate ProperRef(r: Ref<Bytes>) {
    match r
    case Empty => true
    case Inline(n) => !n.NullNode? && Proper(n)
    case Digest(h) => |h| == 32
  }

  // ----- the size the code compares with 32

  lemma {:induction false} EncodeTwo(a: Item, b: Item)
    ensures EncodeAll([a, b]) == Encode(a) + Encode(b)
  {
    assert [a, b][1..] == [b] && [b][1..] == [];
    assert EncodeAll([b]) == Encode(b) + EncodeAll([]);
  }

  lemma {:induction false} EncodeAppend(a: seq<Item>, b: seq<Item>)
    ensures EncodeAll(a + b) == EncodeAll(a) + EncodeAll(b)
  {
    if a == [] {
      assert a + b == b;
    } else {
      assert (a + b)[1..] == a[1..] + b;
      EncodeAppend(a[1..], b);
    }
  }

  lemma HeaderSize(base: int, n: nat)
    requires base == DATA_START || base == LIST_START
    requires n < LENGTH_LIMIT
    ensures |Header(base, n)| + n == WithHeader(n)
  {
    if n >= IMM_LEN_COUNT { EightBytes(n); }
  }

  lemma DataSizeIs(b: Bytes)
    requires |b| < LENGTH_LIMIT
    ensures |Encode(Data(b))| == DataSize(b)
  {
    HeaderSize(DATA_START, |b|);
  }

  lemma {:induction false} PackSize(k: Key)
    ensures |Pack(k)| == (|k| + 1) / 2
  {
    if |k| >= 2 { PackSize(k[2..]); }
  }

  lemma KeySizeIs(k: Key, leaf: bool)
    requires |HexPrefix(k, leaf)| < LENGTH_LIMIT
    ensures |Encode(Data(HexPrefix(k, leaf)))| == KeySize(k)
  {
    var h := HexPrefix(k, leaf);
    OddIs(k);
    if Odd(k) { PackSize(k[1..]); } else { PackSize(k); }
    assert |h| == |k| / 2 + 1;
    assert h[0] < 0x80;
    DataSizeIs(h);
  }

  /** TrieNode.Size is the number of bytes of the encoded node. */
  lemma {:induction false} SizeIs(n: Stored)
    requires Proper(n) && Fits(NodeRlp(n))
    ensures |NodeBytes(n)| == Size(n)
    decreases n, 0
  {
    match n
    case NullNode =>
    case LeafNode(key, val) =>
      var a, b := Data(HexPrefix(key, true)), Data(val);
      assert NodeRlp(n).items[0] == a && NodeRlp(n).items[1] == b;
      EncodeTwo(a, b);
      KeySizeIs(key, true);
      DataSizeIs(val);
      HeaderSize(LIST_START, |EncodeAll([a, b])|);
    case ExtNode(key, ref) =>
      var a, b := Data(HexPrefix(key, false)), RefRlp(ref);
      assert NodeRlp(n).items[0] == a && NodeRlp(n).items[1] == b;
      EncodeTwo(a, b);
      KeySizeIs(key, false);
      RefSizeIs(ref);
      HeaderSize(LIST_START, |EncodeAll([a, b])|);
    case BranchNode(refs, val) =>
      var items := RefsRlp(refs) + [Data(val)];
      forall i | 0 <= i < |refs| ensures Fits(RefsRlp(refs)[i]) { assert items[i] == RefsRlp(refs)[i]; }
      assert items[|refs|] == Data(val);
      RefsSizeIs(refs);
      EncodeAppend(RefsRlp(refs), [Data(val)]);
      assert EncodeAll([Data(val)]) == Encode(Data(val)) + EncodeAll([]);
      DataSizeIs(val);
      HeaderSize(LIST_START, |EncodeAll(items)|);
  }

  lemma {:induction false} RefSizeIs(r: Ref<Bytes>)
    requires ProperRef(r) && Fits(RefRlp(r))
    ensures |Encode(RefRlp(r))| == RefSize(r)
    decreases r, 1
  {
    match r
    case Empty =>
    case Inline(n) => SizeIs(n);
    case Digest(h) => DataSizeIs(h);
  }

  lemma {:induction false} RefsSizeIs(refs: seq<Ref<Bytes>>)
    requires forall i :: 0 <= i < |refs| ==> ProperRef(refs[i]) && Fits(RefsRlp(refs)[i])
    ensures |EncodeAll(RefsRlp(refs))| == RefsSize(refs)
    decreases refs, 1
  {
    if refs != [] {
      var rest := RefsRlp(refs[1..]);
      assert RefsRlp(refs)[0] == RefRlp(refs[0]) && RefsRlp(refs)[1..] == rest;
      RefSizeIs(refs[0]);
      forall i | 0 <= i < |refs[1..]| ensures ProperRef(refs[1..][i]) && Fits(rest[i]) {
        assert refs[1..][i] == refs[i + 1] && rest[i] == RefsRlp(refs)[i + 1];
      }
      RefsSizeIs(refs[1..]);
    }
  }

  // ----- reading a node back

  function RefFrom(i: Item): Option<Ref<Bytes>>
    decreases i, 1
  {
    match i
    case Data(b) => Some(if b == [] then Empty else Digest(b))
    case List(_) =>
      match NodeFrom(i)
      case None => None
      case Some(n) => Some(Inline(n))
  }

  function RefsFrom(items: seq<Item>): Option<seq<Ref<Bytes>>>
    decreases items, 2
  {
    if items == [] then Some([])
    else
      var first, rest := RefFrom(items[0]), RefsFrom(items[1..]);
      if first.None? || rest.None? then None else Some([first.value] + rest.value)
  }

  /** How the trie code takes a node apart: by item count, and a pair by the leaf flag of its key. */
  function NodeFrom(i: Item): Option<Stored>
    decreases i, 0
  {
    match i
    case Data(b) => if b == [] then Some(NullNode) else None
    case List(items) =>
      if |items| == 2 && items[0].Data? && items[0].b != [] then
        var key := KeyOf(items[0].b);
        if IsLeaf(items[0].b) then
          if items[1].Data? then Some(LeafNode(key, items[1].b)) else None
        else
          match RefFrom(items[1])
          case None => None
          case Some(r) => Some(ExtNode(key, r))
      else if |items| == 17 && items[16].Data? then
        match RefsFrom(items[..16])
        case None => None
        case Some(refs) => Some(BranchNode(refs, items[16].b))
      else None
  }

  lemma {:induction false} NodeReadBack(n: Stored)
    requires Proper(n)
    ensures NodeFrom(NodeRlp(n)) == Some(n)
    decreases n, 0
  {
    match n
    case NullNode =>
    case LeafNode(key, _) => HexPrefixRoundTrip(key, true);
    case ExtNode(key, ref) =>
      HexPrefixRoundTrip(key, false);
      RefReadBack(ref);
    case BranchNode(refs, val) =>
      RefsReadBack(refs);
      assert NodeRlp(n).items[..16] == RefsRlp(refs);
  }

  lemma {:induction false} RefReadBack(r: Ref<Bytes>)
    requires ProperRef(r)
    ensures RefFrom(RefRlp(r)) == Some(r)
    decreases r, 1
  {
    match r
    case Empty =>
    case Digest(h) => assert h != [];
    case Inline(n) =>
      NodeReadBack(n);
      assert NodeRlp(n).List?;
  }

  lemma {:induction false} RefsReadBack(refs: seq<Ref<Bytes>>)
    requires forall i :: 0 <= i < |refs| ==> ProperRef(refs[i])
    ensures RefsFrom(RefsRlp(refs)) == Some(refs)
    decreases refs, 1
  {
    if refs != [] {
      RefReadBack(refs[0]);
      RefsReadBack(refs[1..]);
      RefsFromCons(RefRlp(refs[0]), RefsRlp(refs[1..]), refs[0], refs[1..]);
      assert refs == [refs[0]] + refs[1..];
    }
  }

  lemma RefsFromCons(i: Item, items: seq<Item>, r: Ref<Bytes>, refs: seq<Ref<Bytes>>)
    requires RefFrom(i) == Some(r) && RefsFrom(items) == Some(refs)
    ensures RefsFrom([i] + items) == Some([r] + refs)
  {
    assert ([i] + items)[1..] == items;
  }

  /** Bytes written for a node are read back as that node, and so no two nodes share their bytes. */
  lemma BytesReadBack(n: Stored)
    requires Proper(n) && Fits(NodeRlp(n))
    ensures Decode(NodeBytes(n)).Some? && NodeFrom(Decode(NodeBytes(n)).value) == Some(n)
  {
    DecodeEncode(NodeRlp(n));
    NodeReadBack(n);
  }

  // ----- the hash of a node is the hash of its bytes

  function ShaOf(keccak: Bytes -> Bytes): Sha<Bytes> {
    n => keccak(NodeBytes(n))
  }

  /** Nodes collide only where the byte hash does. */
  lemma CollisionIsByteCollision(keccak: Bytes -> Bytes, m: Stored, n: Stored)
    requires Proper(m) && Proper(n) && Fits(NodeRlp(m)) && Fits(NodeRlp(n))
    requires m != n && ShaOf(keccak)(m) == ShaOf(keccak)(n)
    ensures NodeBytes(m) != NodeBytes(n) && keccak(NodeBytes(m)) == keccak(NodeBytes(n))
  {
    BytesReadBack(m);
    BytesReadBack(n);
  }

  /** The stored form of a tree is proper when the hash has 32 bytes. */
  lemma {:induction false} SealProper(sha: Sha<Bytes>, t: Tree)
    requires Shaped(t) && forall n :: |sha(n)| == 32
    ensures Proper(Seal(sha, t))
    decreases t, 0
  {
    match t
    case Nil =>
    case Leaf(_, _) =>
    case Ext(_, child) => SealProperRef(sha, child);
    case Branch(kids, _) =>
      forall i | 0 <= i < 16 ensures ProperRef(Seal(sha, t).refs[i]) { SealProperRef(sha, kids[i]); }
  }

  lemma {:induction false} SealProperRef(sha: Sha<Bytes>, t: Tree)
    requires Shaped(t) && forall n :: |sha(n)| == 32
    ensures ProperRef(RefOf(sha, t))
    decreases t, 1
  {
    SealProper(sha, t);
  }
}
