/**
 * What a misgraft does to a trie: the last step of a removal takes a branch's value for the hash of
 * a node, finds a two-item node under it, and puts that node in the branch's place
 * (libdevcore/TrieDB.h:1041-1046, 1133-1169).
 */
module TrieMisgraft {
  import opened Nibbles
  import opened Trie
  import opened TrieInsert
  import opened TrieDelete
  import opened TrieBlocked

  /**
   * A misgraft at the stored key p removes p and k, and puts the contents of the node that the
   * value of p named in their place.
   */
  lemma {:induction false} MisgraftGet(e: Env, t: Tree, k: Key) returns (p: Key, c: Tree)
    requires Canonical(t) && Shaped(t) && Delete(e, t, k).Misgrafted?
    ensures Heir(t, k, p) && |Get(t, p)| <= 32 && e.named(Get(t, p), HeirLeaf(t, k, p)) == Some(c)
    ensures Replaces(t, Delete(e, t, k).t, p, c)
  {
    match t
    case Ext(key, child) =>
      var k' := k[|key|..];
      assert k == key + k';
      var p', c' := MisgraftGet(e, child, k');
      p, c := key + p', c';
      BelowExt(key, child);
      HeirShift(t, key, child, k', p');
      assert Get(t, p) == Get(child, p');
      ReplacesExt(key, child, Delete(e, child, k').t, p', c);
    case Branch(kids, val) =>
      var n, k' := k[0], k[1..];
      assert k == [n] + k';
      var o := Delete(e, kids[n], k');
      if o.Misgrafted? {
        var p', c' := MisgraftGet(e, kids[n], k');
        p, c := [n] + p', c';
        BelowSlot(kids, val, n);
        HeirShift(t, [n], kids[n], k', p');
        assert Get(t, p) == Get(kids[n], p');
        ReplacesSlot(kids, val, n, o.t, p', c);
      } else {
        BranchHeir(e, kids, val, k);
        p, c := [], e.named(val, kids[n]).value;
        assert forall q: Key :: q[0..] == q;
      }
  }

  /** r holds below p what c holds, and elsewhere what t holds. */
  ghost predicate Replaces(t: Tree, r: Tree, p: Key, c: Tree) {
    forall q :: Get(r, q) == if p <= q then Get(c, q[|p|..]) else Get(t, q)
  }

  lemma ReplacesExt(key: Key, child: Tree, edited: Tree, p: Key, c: Tree)
    requires Replaces(child, edited, p, c)
    ensures Replaces(Ext(key, child), Join(key, edited), key + p, c)
  {
    forall q
      ensures Get(Join(key, edited), q) == if key + p <= q then Get(c, q[|key + p|..]) else Get(Ext(key, child), q)
    {
      JoinGet(key, edited, q);
      Onward(key, p, q);
    }
  }

  lemma ReplacesSlot(kids: seq<Tree>, val: Bytes, n: Nibble, kid: Tree, p: Key, c: Tree)
    requires |kids| == 16 && Replaces(kids[n], kid, p, c)
    ensures Replaces(Branch(kids, val), Branch(kids[n := kid], val), [n] + p, c)
  {
    var t, r := Branch(kids, val), Branch(kids[n := kid], val);
    forall q ensures Get(r, q) == if [n] + p <= q then Get(c, q[|[n] + p|..]) else Get(t, q) {
      Onward([n], p, q);
    }
  }

  lemma Onward(pre: Key, p: Key, q: Key)
    ensures pre + p <= q <==> pre <= q && p <= q[|pre|..]
    ensures pre + p <= q ==> q[|pre + p|..] == q[|pre|..][|p|..]
  {
    if pre <= q { assert q == pre + q[|pre|..]; }
    if pre + p <= q { assert q[..|pre|] == (pre + p)[..|pre|] == pre; }
  }
}
