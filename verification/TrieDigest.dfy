/**
 * The trie with the hash the code uses: a hash of 32 bytes, taken of a node's bytes. What the trie
 * asks of it is that it has no collision between nodes of the scope, and that can be had.
 */
module TrieDigest {
  import opened Nibbles
  import opened Rlp
  import opened Trie
  import opened TrieInsert
  import opened TrieNode
  import opened TrieScope
  import opened TrieProbe
  import opened TrieBytes
  import opened TrieCommon
  import opened TrieHash
  import opened TrieRun

  /** A hash function with outputs of 32 bytes. */
  ghost predicate Wide(keccak: Bytes -> Bytes) {
    forall b :: |keccak(b)| == 32
  }

  /** The bytes of the root node of a tree. */
  ghost function RootBytes(keccak: Bytes -> Bytes, t: Tree): Bytes {
    NodeBytes(Seal(ShaOf(keccak), t))
  }

  ghost predicate SameBytes(keccak: Bytes -> Bytes, a: Tree, b: Tree) {
    keccak(RootBytes(keccak, a)) == keccak(RootBytes(keccak, b)) ==> RootBytes(keccak, a) == RootBytes(keccak, b)
  }

  /** The hash has no collision between the byte strings of the scope's nodes. */
  ghost predicate CollisionFree(keccak: Bytes -> Bytes, sc: Scope) {
    forall a, b :: InScope(sc, a) && InScope(sc, b) ==> SameBytes(keccak, a, b)
  }

  /** The nodes of the scope are within the sizes that RLP can state. */
  ghost predicate Statable(keccak: Bytes -> Bytes, sc: Scope) {
    forall t :: InScope(sc, t) ==> Fits(NodeRlp(Seal(ShaOf(keccak), t)))
  }

  lemma ScopeShaped(t: Tree)
    requires CanonicalBelow(t)
    ensures Shaped(t)
  {
    match t
    case Nil =>
    case Leaf(_, _) =>
    case Ext(_, child) => CanonicalShaped(child);
    case Branch(kids, _) =>
      forall i | 0 <= i < 16 ensures Shaped(kids[i]) { CanonicalShaped(kids[i]); }
  }

  lemma WideSha(keccak: Bytes -> Bytes)
    requires Wide(keccak)
    ensures forall n :: |ShaOf(keccak)(n)| == 32
  {
    forall n ensures |ShaOf(keccak)(n)| == 32 { assert ShaOf(keccak)(n) == keccak(NodeBytes(n)); }
  }

  /** What the trie asks of the hash of nodes is what it asks of the hash of their bytes, no more and no less. */
  lemma NoCollisionIff(keccak: Bytes -> Bytes, sc: Scope)
    requires Wide(keccak) && Statable(keccak, sc)
    ensures NoCollision(ShaOf(keccak), sc) <==> CollisionFree(keccak, sc)
  {
    var sha := ShaOf(keccak);
    WideSha(keccak);
    forall a, b | InScope(sc, a) && InScope(sc, b) ensures SameNode(sha, a, b) <==> SameBytes(keccak, a, b) {
      ScopeShaped(a);
      ScopeShaped(b);
      SealProper(sha, a);
      SealProper(sha, b);
      BytesReadBack(Seal(sha, a));
      BytesReadBack(Seal(sha, b));
    }
    if NoCollision(sha, sc) {
      forall a, b | InScope(sc, a) && InScope(sc, b) ensures SameBytes(keccak, a, b) { assert SameNode(sha, a, b); }
    }
    if CollisionFree(keccak, sc) {
      forall a, b | InScope(sc, a) && InScope(sc, b) ensures SameNode(sha, a, b) { assert SameBytes(keccak, a, b); }
    }
  }

  /** toHash: at most 32 bytes, padded in front. */
  function ToHash(v: Bytes): Option<Bytes> {
    if |v| > 32 then None else Some(seq(32 - |v|, _ => 0) + v)
  }

  /**
   * The root of any run, in bytes: the bytes of the root node are those that rlp256 builds from
   * the resulting map, and the root is their hash.
   */
  method RootBytesOfRun(keccak: Bytes -> Bytes, backed: bool, ops: seq<Op>, s: seq<Entry>)
    returns (end: End, root: Bytes, bytes: Bytes, rebuilt: Bytes)
    requires Wide(keccak) && CollisionFree(keccak, PutScope(ops)) && Statable(keccak, PutScope(ops))
    requires PutsValues(ops) && Listing(s, ApplyAll(map[], ops))
    ensures Clear(ShaOf(keccak), PutScope(ops), ToHash, map[], ops) ==> end.Finished?
    ensures end.Finished? ==> Passable(ShaOf(keccak), PutScope(ops), ToHash, map[], ops)
    ensures end.Finished? ==>
              exists t :: Canonical(t) && Models(t, ApplyAll(map[], ops)) && bytes == RootBytes(keccak, t)
    ensures end.Finished? ==> bytes == rebuilt && root == keccak(rebuilt)
  {
    NoCollisionIff(keccak, PutScope(ops));
    var node, again, clean;
    end, root, node, again, clean := RootOfRun(ShaOf(keccak), ToHash, backed, ops, s);
    bytes, rebuilt := NodeBytes(node), NodeBytes(again);
  }

  // ----- such a hash exists

  /** Pads short strings and notes their length; long ones are all mapped to zeros. */
  function Padded(b: Bytes): (r: Bytes)
    ensures |r| == 32
  {
    if |b| < 32 then b + seq(31 - |b|, _ => 0) + [|b|] else seq(32, _ => 0)
  }

  function Pad(): Bytes -> Bytes {
    b => Padded(b)
  }

  lemma PaddedInjective(a: Bytes, b: Bytes)
    requires |a| < 32 && |b| < 32 && Padded(a) == Padded(b)
    ensures a == b
  {
    assert Padded(a)[31] == |a| && Padded(b)[31] == |b|;
    assert a == Padded(a)[..|a|] && b == Padded(b)[..|b|];
  }

  lemma {:induction false} EmptyRefsSize<H>(refs: seq<Ref<H>>)
    requires forall i :: 0 <= i < |refs| ==> refs[i] == Empty
    ensures RefsSize(refs) == |refs|
  {
    if refs != [] { EmptyRefsSize(refs[1..]); }
  }

  /** One pair with the empty key: its nodes are a leaf and a branch with a value, and two without. */
  lemma TinyNodes(v: Byte, t: Tree)
    requires InScope(iset{([], [v])}, t)
    ensures (t.Leaf? ==> t == Leaf([], [v])) && !t.Ext?
    ensures t.Branch? ==> (t.val == [] || t.val == [v]) && forall i :: 0 <= i < 16 ==> t.kids[i].Nil?
  {
    var sc := iset{([], [v])};
    forall q | Get(t, q) != [] ensures q == [] && Get(t, q) == [v] {
      var y: Key :| (y + q, Get(t, q)) in sc;
      assert |y + q| == 0;
    }
    match t
    case Nil =>
    case Leaf(key, val) => assert Get(t, key) != [];
    case Ext(key, child) =>
      var x := SomeKey(child);
      ExtHolds(key, child, x);
    case Branch(kids, val) =>
      assert val != [] ==> Get(t, []) == val;
      forall i | 0 <= i < 16 ensures kids[i].Nil? {
        if !kids[i].Nil? {
          var x := SlotKey(kids, val, i);
        }
      }
  }

  lemma TinyFits(v: Byte, t: Tree)
    requires InScope(iset{([], [v])}, t)
    ensures Fits(NodeRlp(Seal(ShaOf(Pad()), t)))
    ensures Size(Seal(ShaOf(Pad()), t)) < 32
  {
    TinyNodes(v, t);
    var n := Seal(ShaOf(Pad()), t);
    match t
    case Nil =>
    case Leaf(_, _) =>
      var key := HexPrefix([], true);
      assert NodeRlp(n) == List([Data(key), Data([v])]);
      EncodeTwo(Data(key), Data([v]));
    case Branch(kids, val) =>
      assert forall i :: 0 <= i < 16 ==> n.refs[i] == Empty;
      EmptyRefsSize(n.refs);
      EmptyRefsFit(n.refs);
      RefsSizeIs(n.refs);
      var items := RefsRlp(n.refs) + [Data(val)];
      EncodeAppend(RefsRlp(n.refs), [Data(val)]);
      assert EncodeAll([Data(val)]) == Encode(Data(val)) + EncodeAll([]);
      assert forall i :: 0 <= i < |items| ==> Fits(items[i]);
  }

  lemma {:induction false} EmptyRefsFit(refs: seq<Ref<Bytes>>)
    requires forall i :: 0 <= i < |refs| ==> refs[i] == Empty
    ensures forall i :: 0 <= i < |refs| ==> RefsRlp(refs)[i] == Data([])
  {
    if refs != [] { EmptyRefsFit(refs[1..]); }
  }

  /** For that scope the padding has no collision: what the trie asks for can be met. */
  lemma AskedForExists(v: Byte)
    ensures var sc := iset{([], [v])};
            Wide(Pad()) && Statable(Pad(), sc) && CollisionFree(Pad(), sc) && NoCollision(ShaOf(Pad()), sc)
  {
    var sc, sha := iset{([], [v])}, ShaOf(Pad());
    forall t | InScope(sc, t) ensures Fits(NodeRlp(Seal(sha, t))) && |RootBytes(Pad(), t)| < 32 {
      TinyFits(v, t);
      ScopeShaped(t);
      WideSha(Pad());
      SealProper(sha, t);
      SizeIs(Seal(sha, t));
    }
    forall a, b | InScope(sc, a) && InScope(sc, b) ensures SameBytes(Pad(), a, b) {
      if Pad()(RootBytes(Pad(), a)) == Pad()(RootBytes(Pad(), b)) {
        PaddedInjective(RootBytes(Pad(), a), RootBytes(Pad(), b));
      }
    }
    NoCollisionIff(Pad(), sc);
  }
}
