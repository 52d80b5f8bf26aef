/**
 * Insertion into the abstract trie, with the two splitting rewrites of GenericTrieDB
 * (cleve and branch), and the proof that it refines map update and keeps canonical form.
 */
module TrieInsert {
  import opened Nibbles
  import opened Trie

  /** Every branch has its sixteen children. */
  predicate Shaped(t: Tree) {
    match t
    case Nil => true
    case Leaf(_, _) => true
    case Ext(_, child) => Shaped(child)
    case Branch(kids, _) => |kids| == 16 && forall i :: 0 <= i < |kids| ==> Shaped(kids[i])
  }

  lemma {:induction false} CanonicalShaped(t: Tree)
    requires Canonical(t)
    ensures Shaped(t)
  {
    match t
    case Nil =>
    case Leaf(_, _) =>
    case Ext(_, child) => CanonicalShaped(child);
    case Branch(kids, _) =>
      forall i | 0 <= i < 16 ensures Shaped(kids[i]) { CanonicalShaped(kids[i]); }
  }

  function NoKids(): (r: seq<Tree>)
    ensures |r| == 16
  {
    seq(16, _ => Nil)
  }

  /** A two-item node without the first s nibbles of its key. */
  function DropKey(t: Tree, s: nat): Tree
    requires TwoItem(t) && s <= |t.key|
  {
    if t.Leaf? then Leaf(t.key[s..], t.val) else Ext(t.key[s..], t.child)
  }

  /** [K1 & K2, V] becomes [K1, [K2, V]], where K1 is s nibbles long. */
  function Cleve(t: Tree, s: nat): Tree
    requires TwoItem(t) && 0 < s <= |t.key|
  {
    Ext(t.key[..s], DropKey(t, s))
  }

  /** A two-item node rewritten as a branch with one slot in use. */
  function BranchOf(t: Tree): Tree
    requires TwoItem(t) && (t.Ext? ==> t.key != [])
  {
    if t.key == [] then Branch(NoKids(), t.val)
    else
      var rest := if t.Leaf? || |t.key| > 1 then DropKey(t, 1) else t.child;
      Branch(NoKids()[t.key[0] := rest], [])
  }

  /** A key put into a branch whose slot for it is still free. */
  function PutInBranch(b: Tree, k: Key, v: Bytes): Tree
    requires b.Branch? && |b.kids| == 16
  {
    if k == [] then Branch(b.kids, v) else Branch(b.kids[k[0] := Leaf(k[1..], v)], b.val)
  }

  /** The tree that results from storing v under k. */
  function Inserted(t: Tree, k: Key, v: Bytes): (r: Tree)
    requires Shaped(t)
    ensures Shaped(r)
  {
    match t
    case Nil => Leaf(k, v)
    case Leaf(key, _) => if key == k then Leaf(k, v) else Split(t, k, v)
    case Ext(key, child) =>
      if key <= k then Ext(key, Inserted(child, k[|key|..], v)) else Split(t, k, v)
    case Branch(kids, val) =>
      if k == [] then Branch(kids, v)
      else Branch(kids[k[0] := Inserted(kids[k[0]], k[1..], v)], val)
  }

  /** A two-item node split where k leaves its key. */
  function Split(t: Tree, k: Key, v: Bytes): (r: Tree)
    requires Shaped(t) && TwoItem(t)
    requires t.Ext? ==> !(t.key <= k)
    ensures Shaped(r)
  {
    var s := Shared(k, t.key);
    var b := PutInBranch(BranchOf(DropKey(t, s)), k[s..], v);
    if s == 0 then b else Ext(t.key[..s], b)
  }

  /** The node needs neither cleve nor branch before k can go into it. */
  predicate Direct(t: Tree, k: Key) {
    match t
    case Nil => true
    case Leaf(key, _) => key == k
    case Ext(key, _) => key <= k
    case Branch(_, _) => true
  }

  // ----- the rewrites do not change what an insertion produces

  lemma CleveStep(t: Tree, k: Key, v: Bytes)
    requires Shaped(t) && !Direct(t, k) && Shared(k, t.key) > 0
    ensures Direct(Cleve(t, Shared(k, t.key)), k)
    ensures Inserted(Cleve(t, Shared(k, t.key)), k, v) == Inserted(t, k, v)
  {
    var s := Shared(k, t.key);
    var bottom := DropKey(t, s);
    assert t.key[..s] == k[..s];
    SharedUnique(k[s..], bottom.key, 0);
    assert t.key == k[..s] + bottom.key && k == k[..s] + k[s..];
    assert DropKey(bottom, 0) == bottom;
    assert k[s..][0..] == k[s..];
  }

  lemma BranchStep(t: Tree, k: Key, v: Bytes)
    requires Shaped(t) && !Direct(t, k) && Shared(k, t.key) == 0
    ensures Shaped(BranchOf(t))
    ensures Inserted(BranchOf(t), k, v) == Inserted(t, k, v)
  {
    assert DropKey(t, 0) == t;
    assert k[0..] == k;
  }

  // ----- insertion is map update

  lemma {:induction false} InsertGet(t: Tree, k: Key, v: Bytes, q: Key)
    requires Shaped(t)
    ensures Get(Inserted(t, k, v), q) == if q == k then v else Get(t, q)
  {
    match t
    case Nil =>
    case Leaf(key, _) => if key != k { SplitGet(t, k, v, q); }
    case Ext(key, child) =>
      if key <= k {
        if key <= q {
          InsertGet(child, k[|key|..], v, q[|key|..]);
          assert k == key + k[|key|..] && q == key + q[|key|..];
        }
      } else {
        SplitGet(t, k, v, q);
      }
    case Branch(kids, val) =>
      if k != [] && q != [] {
        InsertGet(kids[k[0]], k[1..], v, q[1..]);
        assert k == [k[0]] + k[1..] && q == [q[0]] + q[1..];
      }
  }

  lemma SplitGet(t: Tree, k: Key, v: Bytes, q: Key)
    requires Shaped(t) && TwoItem(t) && !Direct(t, k)
    ensures Get(Split(t, k, v), q) == if q == k then v else Get(t, q)
  {
    var s := Shared(k, t.key);
    var bottom := DropKey(t, s);
    var b := BranchOf(bottom);
    var pre := t.key[..s];
    assert t.key == pre + bottom.key && k == pre + k[s..];
    assert t.key <= q ==> pre <= q;
    var made := PutInBranch(b, k[s..], v);
    if pre <= q {
      var x := q[s..];
      assert q == pre + x;
      DropGet(t, s, x);
      BranchOfGet(bottom, x);
      PutInBranchGet(b, k[s..], v, x);
      assert Get(Split(t, k, v), q) == Get(made, x) by { if s > 0 { ExtHolds(pre, made, x); } else { assert q == x; } }
      assert q == k <==> x == k[s..];
    }
  }

  lemma DropGet(t: Tree, s: nat, x: Key)
    requires TwoItem(t) && s <= |t.key|
    ensures Get(t, t.key[..s] + x) == Get(DropKey(t, s), x)
  {
    var q := t.key[..s] + x;
    assert t.key == t.key[..s] + t.key[s..];
    assert q[s..] == x && q[..s] == t.key[..s];
    if t.Leaf? {
      if x == t.key[s..] { assert q == t.key; }
      if q == t.key { assert x == t.key[s..]; }
    } else {
      if t.key[s..] <= x {
        assert t.key <= q && q[|t.key|..] == x[|t.key| - s..];
      }
      if t.key <= q {
        assert t.key[s..] == q[..|t.key|][s..] == q[s..|t.key|] == x[..|t.key| - s];
      }
    }
  }

  lemma BranchOfGet(t: Tree, x: Key)
    requires TwoItem(t) && (t.Ext? ==> t.key != [])
    ensures Get(BranchOf(t), x) == Get(t, x)
  {
    if t.key != [] && x != [] && x[0] == t.key[0] {
      DropGet(t, 1, x[1..]);
      assert t.key[..1] + x[1..] == x;
      if t.Ext? && |t.key| == 1 { assert DropKey(t, 1).key == [] && x[1..][0..] == x[1..]; }
    }
  }

  lemma PutInBranchGet(b: Tree, k: Key, v: Bytes, x: Key)
    requires b.Branch? && |b.kids| == 16 && (k != [] ==> b.kids[k[0]].Nil?)
    ensures Get(PutInBranch(b, k, v), x) == if x == k then v else Get(b, x)
  {
    if k != [] && x != [] {
      assert k == [k[0]] + k[1..] && x == [x[0]] + x[1..];
    }
  }

  // ----- insertion keeps canonical form

  lemma {:induction false} InsertCanonical(t: Tree, k: Key, v: Bytes)
    requires Canonical(t) && Shaped(t) && v != []
    ensures Canonical(Inserted(t, k, v)) && !Inserted(t, k, v).Nil?
    ensures t.Branch? ==> Inserted(t, k, v).Branch?
  {
    match t
    case Nil =>
    case Leaf(key, _) => if key != k { SplitCanonical(t, k, v); }
    case Ext(key, child) =>
      if key <= k { InsertCanonical(child, k[|key|..], v); } else { SplitCanonical(t, k, v); }
    case Branch(kids, val) =>
      var i, j :| 0 <= i < j <= 16 && Used(kids, val, i) && Used(kids, val, j);
      if k == [] {
        assert Used(kids, v, i) && Used(kids, v, j);
      } else {
        InsertCanonical(kids[k[0]], k[1..], v);
        var kids' := kids[k[0] := Inserted(kids[k[0]], k[1..], v)];
        assert Used(kids', val, i) && Used(kids', val, j);
      }
  }

  lemma BranchOfCanonicalKids(t: Tree)
    requires Canonical(t) && TwoItem(t)
    ensures forall n :: 0 <= n < 16 ==> Canonical(BranchOf(t).kids[n])
  {
  }

  lemma SplitCanonical(t: Tree, k: Key, v: Bytes)
    requires Canonical(t) && Shaped(t) && TwoItem(t) && !Direct(t, k) && v != []
    ensures Canonical(Split(t, k, v)) && !Split(t, k, v).Nil?
  {
    var s := Shared(k, t.key);
    var bottom := DropKey(t, s);
    assert t.key == k[..s] + bottom.key && k == k[..s] + k[s..];
    assert bottom.key == [] || k[s..] == [] || bottom.key[0] != k[s..][0];
    ForkCanonical(bottom, k[s..], v);
  }

  /** A key that parts from a node's key at once makes a canonical branch with it. */
  lemma ForkCanonical(t: Tree, k: Key, v: Bytes)
    requires Canonical(t) && TwoItem(t) && v != []
    requires if t.key == [] || k == [] then t.key != k else t.key[0] != k[0]
    ensures Canonical(PutInBranch(BranchOf(t), k, v))
  {
    var r := PutInBranch(BranchOf(t), k, v);
    var i := if t.key == [] then 16 else t.key[0];
    var j := if k == [] then 16 else k[0];
    assert Used(r.kids, r.val, i) && Used(r.kids, r.val, j) && (i < j || j < i);
    BranchOfCanonicalKids(t);
  }
}
