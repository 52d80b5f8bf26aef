/**
 * Which nodes must not collide. A hash of 32 bytes cannot be injective on all nodes; what the trie
 * needs is that no two nodes that can arise from the keys and values at hand share their hash. A
 * scope is a set of key-value pairs, and the trees in it hold values of the scope under ends of
 * their keys.
 */
module TrieScope {
  import opened Nibbles
  import opened Trie
  import opened TrieInsert
  import opened TrieDelete
  import opened TrieBlocked
  import opened TrieNode

  type Scope = iset<(Key, Bytes)>

  /** q ends a key that the scope pairs with v. */
  ghost predicate Tail(sc: Scope, q: Key, v: Bytes) {
    exists y: Key :: (y + q, v) in sc
  }

  /** Whatever t holds comes from the scope. */
  ghost predicate Within(sc: Scope, t: Tree) {
    forall q :: Get(t, q) != [] ==> Tail(sc, q, Get(t, q))
  }

  /** Everything below the node is canonical; the node itself may be a half-finished rewrite. */
  ghost predicate CanonicalBelow(t: Tree) {
    match t
    case Nil => true
    case Leaf(_, val) => val != []
    case Ext(key, child) => key != [] && !child.Nil? && Canonical(child)
    case Branch(kids, _) => |kids| == 16 && forall i :: 0 <= i < 16 ==> Canonical(kids[i])
  }

  /** The trees whose nodes can come to be hashed while keys and values of the scope are edited. */
  ghost predicate InScope(sc: Scope, t: Tree) {
    CanonicalBelow(t) && Within(sc, t)
  }

  ghost predicate SameNode<H>(sha: Sha<H>, a: Tree, b: Tree) {
    Hash(sha, a) == Hash(sha, b) ==> Seal(sha, a) == Seal(sha, b)
  }

  /** No two nodes of the scope collide. */
  ghost predicate NoCollision<H(!new)>(sha: Sha<H>, sc: Scope) {
    forall a, b :: InScope(sc, a) && InScope(sc, b) ==> SameNode(sha, a, b)
  }

  // ----- what stays in scope

  lemma TailEnd(sc: Scope, pre: Key, q: Key, v: Bytes)
    requires Tail(sc, pre + q, v)
    ensures Tail(sc, q, v)
  {
    var y: Key :| (y + (pre + q), v) in sc;
    assert y + (pre + q) == (y + pre) + q;
  }

  lemma TailAfter(sc: Scope, k: Key, i: nat, v: Bytes)
    requires i <= |k| && Tail(sc, k, v)
    ensures Tail(sc, k[i..], v)
  {
    assert k == k[..i] + k[i..];
    TailEnd(sc, k[..i], k[i..], v);
  }

  lemma WithinBelow(sc: Scope, t: Tree, pre: Key, c: Tree)
    requires Within(sc, t) && Below(t, pre, c)
    ensures Within(sc, c)
  {
    forall q | Get(c, q) != [] ensures Tail(sc, q, Get(c, q)) {
      assert Get(t, pre + q) == Get(c, q);
      TailEnd(sc, pre, q, Get(c, q));
    }
  }

  lemma WithinExt(sc: Scope, key: Key, child: Tree)
    requires Within(sc, Ext(key, child))
    ensures Within(sc, child)
  {
    BelowExt(key, child);
    WithinBelow(sc, Ext(key, child), key, child);
  }

  lemma WithinSlot(sc: Scope, kids: seq<Tree>, val: Bytes, n: Nibble)
    requires |kids| == 16 && Within(sc, Branch(kids, val))
    ensures Within(sc, kids[n])
  {
    BelowSlot(kids, val, n);
    WithinBelow(sc, Branch(kids, val), [n], kids[n]);
  }

  lemma WithinSame(sc: Scope, a: Tree, b: Tree)
    requires Within(sc, a) && SameContents(a, b)
    ensures Within(sc, b)
  {
    forall q | Get(b, q) != [] ensures Tail(sc, q, Get(b, q)) { assert Get(a, q) == Get(b, q); }
  }

  lemma WithinInserted(sc: Scope, t: Tree, k: Key, v: Bytes)
    requires Within(sc, t) && Shaped(t) && Tail(sc, k, v)
    ensures Within(sc, Inserted(t, k, v))
  {
    var r := Inserted(t, k, v);
    forall q | Get(r, q) != [] ensures Tail(sc, q, Get(r, q)) { InsertGet(t, k, v, q); }
  }

  lemma WithinDropKey(sc: Scope, t: Tree, s: nat)
    requires TwoItem(t) && s <= |t.key| && Within(sc, t)
    ensures Within(sc, DropKey(t, s))
  {
    DropKeyBelow(t, s);
    WithinBelow(sc, t, t.key[..s], DropKey(t, s));
  }

  lemma DropKeyBelow(t: Tree, s: nat)
    requires TwoItem(t) && s <= |t.key|
    ensures Below(t, t.key[..s], DropKey(t, s))
  {
    var pre, c := t.key[..s], DropKey(t, s);
    assert t == Join(pre, c) by { assert pre + t.key[s..] == t.key; }
    forall x ensures Get(t, pre + x) == Get(c, x) {
      JoinGet(pre, c, pre + x);
      ExtHolds(pre, c, x);
    }
  }

  lemma WithinCleve(sc: Scope, t: Tree, s: nat)
    requires TwoItem(t) && 0 < s <= |t.key| && Within(sc, t)
    ensures Within(sc, Cleve(t, s))
  {
    var pre, c := t.key[..s], DropKey(t, s);
    assert t == Join(pre, c) by { assert pre + t.key[s..] == t.key; }
    forall q ensures Get(t, q) == Get(Cleve(t, s), q) { JoinGet(pre, c, q); }
    WithinSame(sc, t, Cleve(t, s));
  }

  lemma WithinBranchOf(sc: Scope, t: Tree)
    requires TwoItem(t) && (t.Ext? ==> t.key != []) && Within(sc, t)
    ensures Within(sc, BranchOf(t))
  {
    forall q ensures Get(t, q) == Get(BranchOf(t), q) { BranchOfGet(t, q); }
    WithinSame(sc, t, BranchOf(t));
  }

  lemma WithinDeleted(sc: Scope, e: Env, t: Tree, k: Key)
    requires Within(sc, t) && Canonical(t) && Shaped(t) && Delete(e, t, k).Removed?
    ensures Within(sc, Delete(e, t, k).t)
  {
    var r := Delete(e, t, k).t;
    forall q | Get(r, q) != [] ensures Tail(sc, q, Get(r, q)) { DeleteGet(e, t, k, q); }
  }

  // ----- within a scope without collisions, a hash determines its tree

  lemma CanonicalIsBelow(t: Tree)
    requires Canonical(t)
    ensures CanonicalBelow(t)
  {
  }

  lemma {:induction false} SealInjective<H(!new)>(sha: Sha<H>, sc: Scope, a: Tree, b: Tree)
    requires NoCollision(sha, sc) && InScope(sc, a) && InScope(sc, b) && Seal(sha, a) == Seal(sha, b)
    ensures a == b
    decreases a, 0
  {
    match a
    case Nil =>
    case Leaf(_, _) =>
    case Ext(key, child) =>
      WithinExt(sc, key, child);
      WithinExt(sc, key, b.child);
      RefInjective(sha, sc, child, b.child);
    case Branch(kids, val) =>
      forall i | 0 <= i < |kids| ensures kids[i] == b.kids[i] {
        assert Seal(sha, a).refs[i] == Seal(sha, b).refs[i];
        WithinSlot(sc, kids, val, i);
        WithinSlot(sc, b.kids, val, i);
        RefInjective(sha, sc, kids[i], b.kids[i]);
      }
      assert kids == b.kids;
  }

  lemma {:induction false} RefInjective<H(!new)>(sha: Sha<H>, sc: Scope, a: Tree, b: Tree)
    requires NoCollision(sha, sc) && Canonical(a) && Canonical(b) && Within(sc, a) && Within(sc, b)
    requires RefOf(sha, a) == RefOf(sha, b)
    ensures a == b
    decreases a, 1
  {
    CanonicalIsBelow(a);
    CanonicalIsBelow(b);
    if !a.Nil? {
      assert SameNode(sha, a, b);
      SealInjective(sha, sc, a, b);
    }
  }

  lemma HashInjective<H(!new)>(sha: Sha<H>, sc: Scope, a: Tree, b: Tree)
    requires NoCollision(sha, sc) && InScope(sc, a) && InScope(sc, b) && Hash(sha, a) == Hash(sha, b)
    ensures a == b
  {
    assert SameNode(sha, a, b);
    SealInjective(sha, sc, a, b);
  }
}
