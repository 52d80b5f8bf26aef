/**
 * Nodes as they are kept in the node store. A child whose encoding has fewer than 32 bytes sits
 * inline in its parent; any other child is replaced by its hash. The hash function is a
 * parameter, `sha`, applied to the node it digests.
 */
module TrieNode {
  import opened Nibbles
  import opened Trie
  import opened TrieInsert
  import Rlp

  datatype Ref<H> =
    | Empty
    | Inline(node: Node<H>)
    | Digest(hash: H)

  datatype Node<H> =
    | NullNode
    | LeafNode(key: Key, val: Bytes)
    | ExtNode(key: Key, ref: Ref<H>)
    | BranchNode(refs: seq<Ref<H>>, val: Bytes)

  type Sha<!H> = Node<H> -> H

  // ----- encoded sizes (Appendix B of the Ethereum Yellow Paper)

  /** Header and payload of an item whose payload has n bytes. */
  function WithHeader(n: nat): (r: nat)
    ensures r > n
  {
    if n < 56 then 1 + n else 1 + Rlp.BytesRequired(n) + n
  }

  function DataSize(b: Bytes): (r: nat)
    ensures r > 0
  {
    if |b| == 1 && b[0] < 0x80 then 1 else WithHeader(|b|)
  }

  /** Size of the RLP string that holds the hex-prefix form of a key. */
  function KeySize(k: Key): nat {
    if |k| < 2 then 1 else WithHeader(|k| / 2 + 1)
  }

  function RefSize<H>(r: Ref<H>): (s: nat) {
    match r
    case Empty => 1
    case Inline(n) => Size(n)
    case Digest(_) => 33
  }

  /** Length in bytes of the RLP encoding of a node. */
  function Size<H>(n: Node<H>): (s: nat) {
    match n
    case NullNode => 1
    case LeafNode(key, val) => WithHeader(KeySize(key) + DataSize(val))
    case ExtNode(key, ref) => WithHeader(KeySize(key) + RefSize(ref))
    case BranchNode(refs, val) => WithHeader(RefsSize(refs) + DataSize(val))
  }

  function RefsSize<H>(refs: seq<Ref<H>>): nat {
    if refs == [] then 0 else RefSize(refs[0]) + RefsSize(refs[1..])
  }

  // ----- from trees to stored nodes

  /** The stored form of the root of a tree. */
  ghost function Seal<H>(sha: Sha<H>, t: Tree): Node<H>
    decreases t, 0
  {
    match t
    case Nil => NullNode
    case Leaf(key, val) => LeafNode(key, val)
    case Ext(key, child) => ExtNode(key, RefOf(sha, child))
    case Branch(kids, val) => BranchNode(seq(|kids|, i requires 0 <= i < |kids| => RefOf(sha, kids[i])), val)
  }

  /** How a parent refers to a child. */
  ghost function RefOf<H>(sha: Sha<H>, t: Tree): Ref<H>
    decreases t, 1
  {
    if t.Nil? then Empty
    else
      var n := Seal(sha, t);
      if Size(n) < 32 then Inline(n) else Digest(sha(n))
  }

  ghost function Hash<H>(sha: Sha<H>, t: Tree): H {
    sha(Seal(sha, t))
  }

  // ----- occurrences of a hash in an unfolded tree

  /** How often h refers to a node strictly below the root of t. */
  ghost function Occ<H>(sha: Sha<H>, t: Tree, h: H): nat
    decreases t, 0
  {
    match t
    case Nil => 0
    case Leaf(_, _) => 0
    case Ext(_, child) => OccRef(sha, child, h)
    case Branch(kids, _) => OccKids(sha, kids, h)
  }

  ghost function OccKids<H>(sha: Sha<H>, kids: seq<Tree>, h: H): nat
    decreases kids
  {
    if kids == [] then 0 else OccRef(sha, kids[0], h) + OccKids(sha, kids[1..], h)
  }

  /** The reference to t itself, if it is by hash, and everything below. */
  ghost function OccRef<H>(sha: Sha<H>, t: Tree, h: H): nat
    decreases t, 1
  {
    Occ(sha, t, h) + OccSelf(sha, t, h)
  }

  ghost function OccSelf<H>(sha: Sha<H>, t: Tree, h: H): nat {
    if Size(Seal(sha, t)) >= 32 && Hash(sha, t) == h then 1 else 0
  }

  /** Occurrences in a whole trie, whose root is always kept by hash. */
  ghost function OccRoot<H>(sha: Sha<H>, t: Tree, h: H): nat {
    Occ(sha, t, h) + if Hash(sha, t) == h then 1 else 0
  }

  lemma {:induction false} OccKidsUpdate<H>(sha: Sha<H>, kids: seq<Tree>, i: nat, c: Tree, h: H)
    requires i < |kids|
    ensures OccKids(sha, kids[i := c], h) + OccRef(sha, kids[i], h) == OccKids(sha, kids, h) + OccRef(sha, c, h)
    decreases |kids|
  {
    if i > 0 {
      OccKidsUpdate(sha, kids[1..], i - 1, c, h);
      assert kids[i := c][1..] == kids[1..][i - 1 := c];
    } else {
      assert kids[i := c][1..] == kids[1..];
    }
  }

  lemma {:induction false} OccKidsAt<H>(sha: Sha<H>, kids: seq<Tree>, i: nat, h: H)
    requires i < |kids|
    ensures OccRef(sha, kids[i], h) <= OccKids(sha, kids, h)
    decreases |kids|
  {
    if i > 0 { OccKidsAt(sha, kids[1..], i - 1, h); }
  }

  /** With all other slots empty, one slot accounts for every occurrence. */
  lemma {:induction false} OccKidsSole<H>(sha: Sha<H>, kids: seq<Tree>, i: nat, h: H)
    requires i <= |kids|
    requires forall j :: 0 <= j < |kids| && j != i ==> kids[j].Nil?
    ensures OccKids(sha, kids, h) == if i < |kids| then OccRef(sha, kids[i], h) else 0
    decreases |kids|
  {
    if kids != [] {
      if i > 0 { OccKidsSole(sha, kids[1..], i - 1, h); } else { OccKidsSole(sha, kids[1..], |kids| - 1, h); }
    }
  }
}
