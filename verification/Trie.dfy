/**
 * The Merkle Patricia trie as an abstract tree: what a trie contains, which trees are
 * canonical, and that a canonical tree is determined by its contents alone.
 */
module Trie {
  import opened Nibbles

  /** An unfolded trie: every reference already resolved to the node it denotes. */
  datatype Tree =
    | Nil
    | Leaf(key: Key, val: Bytes)
    | Ext(key: Key, child: Tree)
    | Branch(kids: seq<Tree>, val: Bytes)

  /** The value stored under k; the empty string means that k is absent. */
  function Get(t: Tree, k: Key): Bytes {
    match t
    case Nil => []
    case Leaf(key, val) => if k == key then val else []
    case Ext(key, child) => if key <= k then Get(child, k[|key|..]) else []
    case Branch(kids, val) => if k == [] then val else if k[0] < |kids| then Get(kids[k[0]], k[1..]) else []
  }

  predicate TwoItem(t: Tree) {
    t.Leaf? || t.Ext?
  }

  /** Slot i of a branch is in use; slot 16 is the branch's own value. */
  predicate Used(kids: seq<Tree>, val: Bytes, i: int)
    requires |kids| == 16 && 0 <= i <= 16
  {
    if i < 16 then !kids[i].Nil? else val != []
  }

  ghost predicate TwoUsed(kids: seq<Tree>, val: Bytes)
    requires |kids| == 16
  {
    exists i, j :: 0 <= i < j <= 16 && Used(kids, val, i) && Used(kids, val, j)
  }

  /**
   * Canonical form: no empty value, no extension with an empty key or over anything but a
   * branch, and no branch with fewer than two slots in use.
   */
  ghost predicate Canonical(t: Tree) {
    match t
    case Nil => true
    case Leaf(_, val) => val != []
    case Ext(key, child) => key != [] && child.Branch? && Canonical(child)
    case Branch(kids, val) =>
      |kids| == 16 && TwoUsed(kids, val) && forall i :: 0 <= i < 16 ==> Canonical(kids[i])
  }

  // ----- contents determine a canonical tree

  /** A non-empty canonical tree holds at least one key. */
  lemma {:induction false} SomeKey(t: Tree) returns (k: Key)
    requires Canonical(t) && !t.Nil?
    ensures Get(t, k) != []
  {
    match t
    case Leaf(key, _) => k := key;
    case Ext(key, child) =>
      var x := SomeKey(child);
      k := key + x;
    case Branch(kids, val) =>
      var i :| 0 <= i < 16 && Used(kids, val, i);
      k := SlotKey(kids, val, i);
  }

  /** A used slot of a branch holds a key that starts with the slot's nibble (or is empty, for slot 16). */
  lemma {:induction false} SlotKey(kids: seq<Tree>, val: Bytes, i: int) returns (k: Key)
    requires |kids| == 16 && 0 <= i <= 16 && Used(kids, val, i)
    requires forall j :: 0 <= j < 16 ==> Canonical(kids[j])
    ensures Get(Branch(kids, val), k) != []
    ensures if i < 16 then k != [] && k[0] == i else k == []
    decreases kids, 0
  {
    if i == 16 {
      k := [];
    } else {
      var x := SomeKey(kids[i]);
      k := [i] + x;
      assert k[1..] == x;
    }
  }

  /** A canonical branch holds two keys with no common first nibble. */
  lemma {:induction false} Fork(t: Tree) returns (a: Key, b: Key)
    requires Canonical(t) && t.Branch?
    ensures Get(t, a) != [] && Get(t, b) != []
    ensures a != [] && (b == [] || a[0] != b[0])
  {
    var i, j :| 0 <= i < j <= 16 && Used(t.kids, t.val, i) && Used(t.kids, t.val, j);
    a := SlotKey(t.kids, t.val, i);
    b := SlotKey(t.kids, t.val, j);
  }

  /** Two trees that hold the same values under all keys. */
  ghost predicate SameContents(a: Tree, b: Tree) {
    forall k :: Get(a, k) == Get(b, k)
  }

  /** The contents of a trie determine its canonical tree: history leaves no trace in the shape. */
  lemma {:induction false} CanonicalUnique(a: Tree, b: Tree)
    requires Canonical(a) && Canonical(b)
    requires SameContents(a, b)
    ensures a == b
  {
    match a
    case Nil =>
      if !b.Nil? { var k := SomeKey(b); }
    case Leaf(key, val) =>
      assert Get(b, key) == Get(a, key) == val;
      LeafUnique(key, val, b);
    case Ext(key, child) =>
      ExtUnique(key, child, b);
      forall x ensures Get(child, x) == Get(b.child, x) {
        assert (key + x)[|key|..] == x;
        assert Get(a, key + x) == Get(b, key + x);
      }
      CanonicalUnique(child, b.child);
    case Branch(kids, val) =>
      BranchShape(a, b);
      assert Get(a, []) == Get(b, []);
      forall i | 0 <= i < 16 ensures kids[i] == b.kids[i] {
        forall x ensures Get(kids[i], x) == Get(b.kids[i], x) {
          assert ([i] + x)[1..] == x;
          assert Get(a, [i] + x) == Get(b, [i] + x);
        }
        CanonicalUnique(kids[i], b.kids[i]);
      }
      assert kids == b.kids;
  }

  lemma {:induction false} LeafUnique(key: Key, val: Bytes, b: Tree)
    requires Canonical(b) && val != []
    requires SameContents(Leaf(key, val), b)
    ensures b == Leaf(key, val)
  {
    assert Get(b, key) == Get(Leaf(key, val), key);
    match b
    case Nil =>
    case Leaf(k2, v2) => assert Get(b, k2) == Get(Leaf(key, val), k2);
    case Ext(k2, c2) =>
      var x, y := Fork(c2);
      ExtHolds(k2, c2, x); ExtHolds(k2, c2, y);
      OnlyKey(key, val, b, k2 + x);
      OnlyKey(key, val, b, k2 + y);
    case Branch(_, _) =>
      var x, y := Fork(b);
      OnlyKey(key, val, b, x);
      OnlyKey(key, val, b, y);
  }

  lemma {:induction false} OnlyKey(key: Key, val: Bytes, b: Tree, k: Key)
    requires SameContents(Leaf(key, val), b)
    ensures Get(b, k) != [] ==> k == key
  {
    assert Get(Leaf(key, val), k) == Get(b, k);
  }

  lemma {:induction false} ExtUnique(key: Key, child: Tree, b: Tree)
    requires Canonical(Ext(key, child)) && Canonical(b)
    requires SameContents(Ext(key, child), b)
    ensures b.Ext? && b.key == key
  {
    var a := Ext(key, child);
    var x, y := Fork(child);
    ExtHolds(key, child, x); ExtHolds(key, child, y);
    assert Get(b, key + x) != [] && Get(b, key + y) != [];
    match b
    case Nil =>
    case Leaf(k2, v2) =>
    case Branch(_, _) => var u, w := Fork(b); FirstNibble(a, b, u); FirstNibble(a, b, w);
    case Ext(k2, c2) =>
      var u, w := Fork(c2);
      ExtHolds(k2, c2, u); ExtHolds(k2, c2, w);
      assert Get(a, k2 + u) != [] && Get(a, k2 + w) != [];
      assert k2 <= key + x && k2 <= key + y && key <= k2 + u && key <= k2 + w;
      Overhang(k2, key, x); Overhang(k2, key, y);
      Overhang(key, k2, u); Overhang(key, k2, w);
      assert |k2| == |key| ==> (key + x)[..|k2|] == key;
  }

  lemma {:induction false} ExtHolds(key: Key, child: Tree, x: Key)
    ensures Get(Ext(key, child), key + x) == Get(child, x)
    ensures (key + x)[|key|..] == x
  {
    assert (key + x)[|key|..] == x;
  }

  /** A prefix of key + x longer than key fixes the first nibble of x. */
  lemma Overhang(long: Key, key: Key, x: Key)
    requires long <= key + x
    ensures |long| > |key| ==> x != [] && x[0] == long[|key|]
  {
    assert |long| > |key| ==> (key + x)[|key|] == long[|key|];
  }

  lemma FirstNibble(a: Tree, b: Tree, u: Key)
    requires a.Ext? && a.key != [] && SameContents(a, b)
    ensures Get(b, u) != [] ==> u != [] && u[0] == a.key[0]
  {
    assert Get(a, u) == Get(b, u);
  }

  lemma {:induction false} BranchShape(a: Tree, b: Tree)
    requires Canonical(a) && Canonical(b) && a.Branch?
    requires SameContents(a, b)
    ensures b.Branch?
  {
    var x, y := Fork(a);
    assert Get(b, x) == Get(a, x) && Get(b, y) == Get(a, y);
  }
}
