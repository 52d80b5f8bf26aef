/** GenericTrieDB::leftOvers and check: the walk that compares the store's keys with the trie. */
module TrieCheck {
  import opened Nibbles
  import opened Trie
  import opened TrieInsert
  import opened TrieNode
  import opened TrieStore
  import opened TrieScope

  /** What remains of mask once every hash that occurs in c has been erased. */
  ghost predicate Erased<H(!new)>(sha: Sha<H>, c: Tree, mask: set<H>, rest: set<H>) {
    forall h :: h in rest <==> h in mask && OccRef(sha, c, h) == 0
  }

  lemma {:induction false} OccKidsZero<H>(sha: Sha<H>, kids: seq<Tree>, h: H)
    ensures OccKids(sha, kids, h) == 0 <==> forall i :: 0 <= i < |kids| ==> OccRef(sha, kids[i], h) == 0
  {
    if kids != [] {
      OccKidsZero(sha, kids[1..], h);
      assert forall i :: 1 <= i < |kids| ==> kids[i] == kids[1..][i - 1];
    }
  }

  /** descendEntry and descendKey: follow a reference; ok is false where InvalidTrie would be thrown. */
  method DescendEntry<H(==, !new)>(trie: GenericTrieDB<H>, r: Ref<H>, mask: set<H>, wasExt: bool, ghost c: Tree)
    returns (ok: bool, rest: set<H>)
    requires trie.StoreOk() && r == RefOf(trie.sha, c) && trie.Covers(c, true)
    requires Canonical(c) && Within(trie.scope, c) && !c.Nil? && (wasExt ==> c.Branch?)
    ensures ok && Erased(trie.sha, c, mask, rest)
    decreases c, 1
  {
    var n := trie.Deref(r, c);
    var m := if r.Digest? then mask - {r.hash} else mask;
    ok, rest := DescendList(trie, n, m, wasExt, c);
  }

  /** descendList: a leaf, an extension over a branch, or a branch. */
  method DescendList<H(==, !new)>(trie: GenericTrieDB<H>, n: Node<H>, mask: set<H>, wasExt: bool, ghost c: Tree)
    returns (ok: bool, rest: set<H>)
    requires trie.StoreOk() && n == Seal(trie.sha, c) && trie.Covers(c, false)
    requires Canonical(c) && Within(trie.scope, c) && !c.Nil? && (wasExt ==> c.Branch?)
    ensures ok
    ensures forall h :: h in rest <==> h in mask && Occ(trie.sha, c, h) == 0
    decreases c, 0
  {
    if n.LeafNode? && !wasExt {
      ok, rest := true, mask;
    } else if n.ExtNode? && !wasExt {
      assert forall h :: OccRef(trie.sha, c.child, h) == Occ(trie.sha, c, h);
      WithinExt(trie.scope, c.key, c.child);
      ok, rest := DescendEntry(trie, n.ref, mask, true, c.child);
    } else if n.BranchNode? {
      ok, rest := true, mask;
      for i := 0 to 16
        invariant ok
        invariant forall h :: h in rest <==> h in mask && forall j :: 0 <= j < i ==> OccRef(trie.sha, c.kids[j], h) == 0
      {
        if !n.refs[i].Empty? {
          forall h ensures OccRef(trie.sha, c.kids[i], h) <= Occ(trie.sha, c, h) { OccKidsAt(trie.sha, c.kids, i, h); }
          WithinSlot(trie.scope, c.kids, c.val, i);
          ok, rest := DescendEntry(trie, n.refs[i], rest, false, c.kids[i]);
        }
      }
      forall h { OccKidsZero(trie.sha, c.kids, h); }
    } else {
      ok, rest := false, mask;
    }
  }

  /** The keys of the table that the walk from the root does not reach. */
  method LeftOvers<H(==, !new)>(trie: GenericTrieDB<H>) returns (ok: bool, rest: set<H>)
    requires trie.Valid()
    ensures ok
    ensures forall h :: h in rest <==> trie.db.Count(h) > 0 && OccRoot(trie.sha, trie.tree, h) == 0
  {
    var k := trie.db.Keys() - {trie.root};
    var n := trie.Node(trie.root, trie.tree);
    if n.NullNode? {
      ok, rest := true, k;
    } else {
      ok, rest := DescendList(trie, n, k, false, trie.tree);
    }
  }

  /** check(true) succeeds on a trie that has its store to itself. */
  method Check<H(==, !new)>(trie: GenericTrieDB<H>, requireNoLeftOvers: bool) returns (b: bool)
    requires trie.Valid()
    ensures trie.Exact() ==> b
    ensures b <==> !requireNoLeftOvers || forall h :: trie.db.Count(h) > 0 ==> OccRoot(trie.sha, trie.tree, h) > 0
  {
    var ok, rest := LeftOvers(trie);
    if rest != {} {
      ghost var h :| h in rest;
      assert trie.db.Count(h) > 0 && OccRoot(trie.sha, trie.tree, h) == 0;
    }
    b := ok && (rest == {} || !requireNoLeftOvers);
  }
}
