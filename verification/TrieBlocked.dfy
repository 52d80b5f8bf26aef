/**
 * Exactly when a removal is carried out: the conditions on the stored keys and values, and on what
 * the values name, under which deleteAt goes wrong (libdevcore/TrieDB.h:941-1070).
 */
module TrieBlocked {
  import opened Nibbles
  import opened Trie
  import opened TrieInsert
  import opened TrieDelete

  /** A stored key ends properly inside k and no other stored key continues it. */
  ghost predicate DeadEnd(t: Tree, k: Key, p: Key) {
    p < k && Get(t, p) != [] && forall q :: p < q ==> Get(t, q) == []
  }

  /** deleteAt runs past such a key: it finds something, or an error, where the key's value points. */
  ghost predicate Overrun(e: Env, t: Tree, k: Key, p: Key) {
    DeadEnd(t, k, p) && e.follow(Get(t, p), k[|p|..]) != Missing
  }

  /** k is not stored, and stored keys continue it with at least two different nibbles. */
  ghost predicate ForksAt(t: Tree, k: Key) {
    Get(t, k) == [] && exists a, b :: ForkVia(t, k, a, b)
  }

  ghost predicate ForkVia(t: Tree, k: Key, a: Key, b: Key) {
    a != [] && b != [] && a[0] != b[0] && Get(t, k + a) != [] && Get(t, k + b) != []
  }

  /** k is the only stored key that continues the stored key p. */
  ghost predicate Heir(t: Tree, k: Key, p: Key) {
    p < k && Get(t, k) != [] && Get(t, p) != [] && forall q :: p < q && q != k ==> Get(t, q) == []
  }

  /** The leaf of such a k, below the branch that holds the value of p. */
  function HeirLeaf(t: Tree, k: Key, p: Key): Tree
    requires p < k
  {
    Leaf(k[|p| + 1..], Get(t, k))
  }

  /** Without its heir the value of p is taken for a hash: it is too long, or names a two-item node. */
  ghost predicate LoneHeir(e: Env, t: Tree, k: Key, p: Key) {
    Heir(t, k, p) && (|Get(t, p)| > 32 || e.named(Get(t, p), HeirLeaf(t, k, p)).Some?)
  }

  ghost predicate Blocked(e: Env, t: Tree, k: Key) {
    || (exists p :: Overrun(e, t, k, p))
    || ForksAt(t, k)
    || (exists p :: LoneHeir(e, t, k, p))
  }

  /** The removal was carried out, or there was nothing to remove. */
  predicate Completed(o: Outcome) {
    o.NotFound? || o.Removed?
  }

  /** c holds what t holds below pre. */
  ghost predicate Below(t: Tree, pre: Key, c: Tree) {
    forall x :: Get(t, pre + x) == Get(c, x)
  }

  lemma PrefixShift(pre: Key, a: Key, b: Key)
    ensures pre + a < pre + b <==> a < b
    ensures (pre + b)[|pre|..] == b
  {
    assert (pre + b)[|pre|..] == b;
    if pre + a < pre + b { assert a == (pre + a)[|pre|..] == (pre + b)[..|pre + a|][|pre|..] == b[..|a|]; }
    if a < b { assert (pre + b)[..|pre + a|] == pre + b[..|a|]; }
  }

  lemma DeadEndShift(t: Tree, pre: Key, c: Tree, k: Key, p: Key)
    requires Below(t, pre, c)
    ensures DeadEnd(t, pre + k, pre + p) <==> DeadEnd(c, k, p)
  {
    PrefixShift(pre, p, k);
    assert Get(t, pre + p) == Get(c, p);
    if DeadEnd(c, k, p) {
      forall q | pre + p < q ensures Get(t, q) == [] { StripPrefix(t, pre, c, p, q); }
    }
    if DeadEnd(t, pre + k, pre + p) {
      forall q | p < q ensures Get(c, q) == [] { PrefixShift(pre, p, q); assert Get(t, pre + q) == Get(c, q); }
    }
  }

  lemma OverrunShift(e: Env, t: Tree, pre: Key, c: Tree, k: Key, p: Key)
    requires Below(t, pre, c)
    ensures Overrun(e, t, pre + k, pre + p) <==> Overrun(e, c, k, p)
  {
    DeadEndShift(t, pre, c, k, p);
    PrefixShift(pre, p, k);
    assert Get(t, pre + p) == Get(c, p);
    assert p <= k ==> (pre + k)[|pre + p|..] == k[|p|..];
  }

  lemma HeirShift(t: Tree, pre: Key, c: Tree, k: Key, p: Key)
    requires Below(t, pre, c)
    ensures Heir(t, pre + k, pre + p) <==> Heir(c, k, p)
    ensures p < k ==> pre + p < pre + k && HeirLeaf(t, pre + k, pre + p) == HeirLeaf(c, k, p)
  {
    PrefixShift(pre, p, k);
    HeirUp(t, pre, c, k, p);
    HeirDown(t, pre, c, k, p);
    assert Get(t, pre + k) == Get(c, k);
    assert p < k ==> (pre + k)[|pre + p| + 1..] == k[|p| + 1..];
  }

  lemma HeirUp(t: Tree, pre: Key, c: Tree, k: Key, p: Key)
    requires Below(t, pre, c)
    ensures Heir(c, k, p) ==> Heir(t, pre + k, pre + p)
  {
    PrefixShift(pre, p, k);
    assert Get(t, pre + p) == Get(c, p) && Get(t, pre + k) == Get(c, k);
    if Heir(c, k, p) {
      forall q | pre + p < q && q != pre + k ensures Get(t, q) == [] { StripPrefix(t, pre, c, p, q); }
    }
  }

  lemma HeirDown(t: Tree, pre: Key, c: Tree, k: Key, p: Key)
    requires Below(t, pre, c)
    ensures Heir(t, pre + k, pre + p) ==> Heir(c, k, p)
  {
    PrefixShift(pre, p, k);
    assert Get(t, pre + p) == Get(c, p) && Get(t, pre + k) == Get(c, k);
    if Heir(t, pre + k, pre + p) {
      forall q | p < q && q != k ensures Get(c, q) == [] {
        PrefixShift(pre, p, q); PrefixShift(pre, q, k);
        assert Get(t, pre + q) == Get(c, q);
      }
    }
  }

  lemma LoneHeirShift(e: Env, t: Tree, pre: Key, c: Tree, k: Key, p: Key)
    requires Below(t, pre, c)
    ensures LoneHeir(e, t, pre + k, pre + p) <==> LoneHeir(e, c, k, p)
  {
    HeirShift(t, pre, c, k, p);
    assert Get(t, pre + p) == Get(c, p);
  }

  lemma StripPrefix(t: Tree, pre: Key, c: Tree, p: Key, q: Key)
    requires Below(t, pre, c) && pre + p < q
    ensures q == pre + q[|pre|..] && p < q[|pre|..] && Get(t, q) == Get(c, q[|pre|..])
  {
    assert q == pre + q[|pre|..];
    PrefixShift(pre, p, q[|pre|..]);
  }

  lemma ForkShift(t: Tree, pre: Key, c: Tree, k: Key)
    requires Below(t, pre, c)
    ensures ForksAt(t, pre + k) <==> ForksAt(c, k)
  {
    assert Get(t, pre + k) == Get(c, k);
    forall a, b ensures ForkVia(t, pre + k, a, b) <==> ForkVia(c, k, a, b) { ForkViaShift(t, pre, c, k, a, b); }
  }

  lemma ForkViaShift(t: Tree, pre: Key, c: Tree, k: Key, a: Key, b: Key)
    requires Below(t, pre, c)
    ensures ForkVia(t, pre + k, a, b) <==> ForkVia(c, k, a, b)
  {
    assert (pre + k) + a == pre + (k + a) && (pre + k) + b == pre + (k + b);
    assert Get(t, pre + (k + a)) == Get(c, k + a) && Get(t, pre + (k + b)) == Get(c, k + b);
  }

  lemma BelowExt(key: Key, child: Tree)
    ensures Below(Ext(key, child), key, child)
  {
    forall x ensures Get(Ext(key, child), key + x) == Get(child, x) { ExtHolds(key, child, x); }
  }

  lemma BelowSlot(kids: seq<Tree>, val: Bytes, n: Nibble)
    requires |kids| == 16
    ensures Below(Branch(kids, val), [n], kids[n])
  {
    forall x ensures Get(Branch(kids, val), [n] + x) == Get(kids[n], x) { assert ([n] + x)[1..] == x; }
  }

  /** What blocks a removal below pre blocks it in the whole, and conversely. */
  lemma BlockedShift(e: Env, t: Tree, pre: Key, c: Tree, k: Key)
    requires Below(t, pre, c)
    ensures Blocked(e, c, k) ==> Blocked(e, t, pre + k)
    ensures Blocked(e, t, pre + k) ==>
              Blocked(e, c, k) || exists p :: p < pre && (Overrun(e, t, pre + k, p) || LoneHeir(e, t, pre + k, p))
  {
    ForkShift(t, pre, c, k);
    if p :| Overrun(e, c, k, p) { OverrunShift(e, t, pre, c, k, p); }
    if p :| LoneHeir(e, c, k, p) { LoneHeirShift(e, t, pre, c, k, p); }
    BlockedDown(e, t, pre, c, k);
  }

  lemma BlockedDown(e: Env, t: Tree, pre: Key, c: Tree, k: Key)
    requires Below(t, pre, c)
    ensures Blocked(e, t, pre + k) ==>
              Blocked(e, c, k) || exists p :: p < pre && (Overrun(e, t, pre + k, p) || LoneHeir(e, t, pre + k, p))
  {
    ForkShift(t, pre, c, k);
    if p :| Overrun(e, t, pre + k, p) && !(p < pre) {
      Beyond(pre, k, p);
      OverrunShift(e, t, pre, c, k, p[|pre|..]);
    }
    if p :| LoneHeir(e, t, pre + k, p) && !(p < pre) {
      Beyond(pre, k, p);
      LoneHeirShift(e, t, pre, c, k, p[|pre|..]);
    }
  }

  lemma Beyond(pre: Key, k: Key, p: Key)
    requires p < pre + k && !(p < pre)
    ensures |pre| <= |p| && p == pre + p[|pre|..]
  {
  }

  /**
   * Removal is carried out exactly when nothing blocks it: keys, values and what the values name
   * decide, the tree's shape plays no part.
   */
  lemma {:induction false} DeleteCompletesIff(e: Env, t: Tree, k: Key)
    requires Canonical(t) && Shaped(t)
    ensures Completed(Delete(e, t, k)) <==> !Blocked(e, t, k)
  {
    match t
    case Nil =>
    case Leaf(key, val) => LeafBlocked(e, key, val, k);
    case Ext(key, child) =>
      if key <= k {
        var k' := k[|key|..];
        assert k == key + k';
        DeleteCompletesIff(e, child, k');
        BelowExt(key, child);
        BlockedShift(e, t, key, child, k');
      } else {
        ExtAside(e, key, child, k);
      }
    case Branch(kids, val) =>
      if k == [] {
        BranchAtEnd(e, kids, val);
      } else {
        var c := kids[k[0]];
        DeleteCompletesIff(e, c, k[1..]);
        BelowSlot(kids, val, k[0]);
        assert k == [k[0]] + k[1..];
        BlockedShift(e, t, [k[0]], c, k[1..]);
        NoDeadEndHere(kids, val, k);
        BranchLone(e, kids, val, k);
        if p: Key :| p < [k[0]] && (Overrun(e, t, k, p) || LoneHeir(e, t, k, p)) { assert p == []; }
      }
  }

  lemma BranchLone(e: Env, kids: seq<Tree>, val: Bytes, k: Key)
    requires Canonical(Branch(kids, val)) && Shaped(Branch(kids, val)) && k != []
    ensures LoneHeir(e, Branch(kids, val), k, []) <==>
            (var o := Delete(e, kids[k[0]], k[1..]);
             o.Removed? && !Rejig(e, kids[k[0] := o.t], val, kids[k[0]]).Removed?)
  {
    BranchHeir(e, kids, val, k);
    assert Get(Branch(kids, val), []) == val;
  }

  lemma LeafBlocked(e: Env, key: Key, val: Bytes, k: Key)
    requires val != []
    ensures Blocked(e, Leaf(key, val), k) <==> key < k && e.follow(val, k[|key|..]) != Missing
  {
    var t := Leaf(key, val);
    if key < k && e.follow(val, k[|key|..]) != Missing { assert Overrun(e, t, k, key); }
    forall a, b | Get(t, k + a) != [] && Get(t, k + b) != [] ensures a == b {
      assert a == (k + a)[|k|..] && b == (k + b)[|k|..];
    }
  }

  lemma ExtAside(e: Env, key: Key, child: Tree, k: Key)
    requires !(key <= k)
    ensures !Blocked(e, Ext(key, child), k)
  {
    var t := Ext(key, child);
    forall a | Get(t, k + a) != [] ensures |key| > |k| && a != [] && a[0] == key[|k|] {
      assert key <= k + a;
      Overhang(key, k, a);
    }
    forall p | p < k ensures Get(t, p) == [] { assert key <= p ==> key <= k; }
  }

  lemma BranchAtEnd(e: Env, kids: seq<Tree>, val: Bytes)
    requires Canonical(Branch(kids, val))
    ensures Blocked(e, Branch(kids, val), []) <==> val == []
    ensures Rejig(e, kids, [], Nil).Removed?
  {
    var t := Branch(kids, val);
    if val == [] {
      var a, b := Fork(t);
      assert [] + a == a && [] + b == b;
      assert ForkVia(t, [], a, b);
    }
  }

  lemma NoDeadEndHere(kids: seq<Tree>, val: Bytes, k: Key)
    requires Canonical(Branch(kids, val))
    ensures !DeadEnd(Branch(kids, val), k, [])
  {
    var t := Branch(kids, val);
    var a, b := Fork(t);
    assert [] < a;
  }

  /** At a branch, slot 16 is left alone exactly when k is the heir of the branch's own key, as a leaf. */
  lemma BranchHeir(e: Env, kids: seq<Tree>, val: Bytes, k: Key)
    requires Canonical(Branch(kids, val)) && Shaped(Branch(kids, val)) && k != []
    ensures Heir(Branch(kids, val), k, []) <==>
            (var o := Delete(e, kids[k[0]], k[1..]); o.Removed? && UniqueInUse(kids[k[0] := o.t], val) == 16)
    ensures Heir(Branch(kids, val), k, []) ==>
              kids[k[0]] == HeirLeaf(Branch(kids, val), k, []) && forall j :: 0 <= j < 16 && j != k[0] ==> kids[j].Nil?
  {
    var t := Branch(kids, val);
    var n, k' := k[0], k[1..];
    var c := kids[n];
    var o := Delete(e, c, k');
    assert k == [n] + k';
    if Heir(t, k, []) {
      assert SameContents(Leaf(k', Get(t, k)), c) by {
        forall x ensures Get(Leaf(k', Get(t, k)), x) == Get(c, x) {
          var q := [n] + x;
          assert q[1..] == x && [] < q && Get(t, q) == Get(c, x);
        }
      }
      LeafUnique(k', Get(t, k), c);
      forall j | 0 <= j < 16 && j != n ensures kids[j].Nil? {
        if !kids[j].Nil? {
          var x := SlotKey(kids, val, j);
        }
      }
      assert c == Leaf(k', Get(t, k)) && o == Removed(Nil);
      assert Sole(kids[n := Nil], val, 16);
      assert UniqueInUse(kids[n := Nil], val) == 16;
    }
    if o.Removed? && UniqueInUse(kids[n := o.t], val) == 16 {
      var kids' := kids[n := o.t];
      assert Sole(kids', val, 16);
      assert !Used(kids', val, n);
      DeleteCanonical(e, c, k');
      forall q | [] < q && q != k ensures Get(t, q) == [] {
        assert !Used(kids', val, q[0]);
        assert q == [q[0]] + q[1..];
      }
    }
  }

  /** No stored key is a proper prefix of another, nor of k, nor the reverse. */
  ghost predicate PrefixFree(t: Tree, k: Key) {
    forall p, q :: (p == k || Get(t, p) != []) && (q == k || Get(t, q) != []) ==> !(p < q)
  }

  /** Over prefix-free keys, such as keys of one fixed length, removal is always carried out. */
  lemma PrefixFreeCompletes(e: Env, t: Tree, k: Key)
    requires Canonical(t) && Shaped(t) && PrefixFree(t, k)
    ensures Completed(Delete(e, t, k))
  {
    DeleteCompletesIff(e, t, k);
    forall a, b ensures !ForkVia(t, k, a, b) { assert a != [] ==> k < k + a; }
    forall p | p < k ensures Get(t, p) == [] { var v := Get(t, k); }
  }
}
