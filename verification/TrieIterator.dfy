/**
 * GenericTrieDB::iterator: a walk over the trie with an explicit stack of nodes, and the search
 * for the first key that is not below a given one.
 */
module TrieIterator {
  import opened Nibbles
  import opened Trie
  import opened TrieInsert
  import TrieBlocked
  import opened TrieNode
  import opened TrieStore
  import opened TrieScope
  import opened TrieHash
  import opened TrieOrder

  /**
   * A node on the way down. child is 255 on entering, 16 at the node's own value, 0 to 15 for the
   * child being visited, 17 when done; a leaf that has been reached has child 0.
   */
  datatype Frame<H> = Frame(node: Node<H>, key: Key, child: int)

  function Incremented(child: int): int {
    if child == 16 then 0 else if child == 15 then 17 else child + 1
  }

  /** Entries still to come from one frame. */
  ghost function Pending<H>(f: Frame<H>, t: Tree): seq<Entry> {
    if f.child == 255 then Entries(t, f.key)
    else if t.Branch? then Slots(t, f.key, Incremented(f.child))
    else []
  }

  /** Entries of a branch from slot c on, in visiting order 16, 0, ..., 15. */
  ghost function Slots(t: Tree, pre: Key, c: int): seq<Entry>
    requires t.Branch?
  {
    if c == 16 then Own(t.val, pre) + KidEntries(t.kids, pre, 0)
    else if 0 <= c < 16 then KidEntries(t.kids, pre, c)
    else []
  }

  /** Entries still to come from the whole trail, the top frame first. */
  ghost function Rest<H>(trail: seq<Frame<H>>, trees: seq<Tree>): seq<Entry>
    requires |trail| == |trees|
    decreases |trail|
  {
    if trail == [] then []
    else
      var n := |trail| - 1;
      Pending(trail[n], trees[n]) + Rest(trail[..n], trees[..n])
  }

  /** Rest, where a top frame that is being entered is searched for keys not below its key plus k. */
  ghost function Wanted<H>(trail: seq<Frame<H>>, trees: seq<Tree>, k: Key): seq<Entry>
    requires |trail| == |trees|
  {
    if trail == [] then []
    else
      var n := |trail| - 1;
      if trail[n].child == 255
      then NotBelow(Entries(trees[n], trail[n].key), trail[n].key + k) + Rest(trail[..n], trees[..n])
      else Rest(trail, trees)
  }

  // ----- well-formed trails

  /** Everything t refers to and holds, the trie with the given tree refers to and holds as well. */
  ghost predicate Under<H(!new)>(sha: Sha<H>, t: Tree, root: Tree) {
    (forall h :: Occ(sha, t, h) <= OccRoot(sha, root, h)) && exists pre :: TrieBlocked.Below(root, pre, t)
  }

  /** The frame's node is the stored form of its tree, which is part of the trie. */
  ghost predicate FrameOk<H(!new)>(sha: Sha<H>, root: Tree, f: Frame<H>, t: Tree) {
    && f.node == Seal(sha, t) && Canonical(t) && Shaped(t) && Under(sha, t, root)
    && (f.child == 255 || (t.Leaf? && f.child == 0) || (t.Branch? && 0 <= f.child <= 16))
  }

  /** Frames below the top are branches on their way through a child. */
  ghost predicate BelowOk<H(!new)>(sha: Sha<H>, root: Tree, trail: seq<Frame<H>>, trees: seq<Tree>)
    requires |trail| == |trees|
    decreases |trail|
  {
    trail == [] ||
    var n := |trail| - 1;
    && FrameOk(sha, root, trail[n], trees[n]) && trees[n].Branch? && 0 <= trail[n].child < 16
    && BelowOk(sha, root, trail[..n], trees[..n])
  }

  ghost predicate TrailOk<H(!new)>(sha: Sha<H>, root: Tree, trail: seq<Frame<H>>, trees: seq<Tree>)
    requires |trail| == |trees|
  {
    trail == [] ||
    var n := |trail| - 1;
    FrameOk(sha, root, trail[n], trees[n]) && BelowOk(sha, root, trail[..n], trees[..n])
  }

  lemma SnocOk<H(!new)>(sha: Sha<H>, root: Tree, trail: seq<Frame<H>>, trees: seq<Tree>, f: Frame<H>, t: Tree)
    requires |trail| == |trees| && BelowOk(sha, root, trail, trees) && FrameOk(sha, root, f, t)
    ensures TrailOk(sha, root, trail + [f], trees + [t])
    ensures t.Branch? && 0 <= f.child < 16 ==> BelowOk(sha, root, trail + [f], trees + [t])
  {
    assert (trail + [f])[..|trail|] == trail && (trees + [t])[..|trail|] == trees;
  }

  lemma UnderSelf<H(!new)>(sha: Sha<H>, t: Tree)
    ensures Under(sha, t, t)
  {
    assert TrieBlocked.Below(t, [], t) by {
      forall x: Key ensures Get(t, [] + x) == Get(t, x) { assert [] + x == x; }
    }
  }

  lemma UnderChild<H(!new)>(sha: Sha<H>, t: Tree, c: Tree, root: Tree)
    requires Under(sha, t, root) && Shaped(t)
    requires (t.Ext? && c == t.child) || (t.Branch? && c in t.kids)
    ensures Under(sha, c, root)
    ensures forall h :: OccRef(sha, c, h) <= OccRoot(sha, root, h)
  {
    forall h ensures OccRef(sha, c, h) <= Occ(sha, t, h) {
      if t.Branch? {
        var i :| 0 <= i < |t.kids| && t.kids[i] == c;
        OccKidsAt(sha, t.kids, i, h);
      }
    }
    var pre :| TrieBlocked.Below(root, pre, t);
    if t.Branch? {
      var i :| 0 <= i < 16 && t.kids[i] == c;
      TrieBlocked.BelowSlot(t.kids, t.val, i);
      BelowBelow(root, pre, t, [i], c);
    } else {
      TrieBlocked.BelowExt(t.key, t.child);
      BelowBelow(root, pre, t, t.key, c);
    }
  }

  lemma BelowBelow(root: Tree, pre: Key, t: Tree, more: Key, c: Tree)
    requires TrieBlocked.Below(root, pre, t) && TrieBlocked.Below(t, more, c)
    ensures TrieBlocked.Below(root, pre + more, c)
  {
    forall x ensures Get(root, (pre + more) + x) == Get(c, x) {
      Deeper(root, pre, t, more, c, x);
    }
  }

  lemma Deeper(root: Tree, pre: Key, t: Tree, more: Key, c: Tree, x: Key)
    requires TrieBlocked.Below(root, pre, t) && TrieBlocked.Below(t, more, c)
    ensures Get(root, (pre + more) + x) == Get(c, x)
  {
    var y := more + x;
    assert (pre + more) + x == pre + y;
    assert Get(root, pre + y) == Get(t, y);
  }

  // ----- termination: work left in a trail

  ghost function Weight(t: Tree): (w: nat)
    ensures w > 0
  {
    match t
    case Nil => 1
    case Leaf(_, _) => 2
    case Ext(_, child) => 1 + Weight(child)
    case Branch(kids, _) => 2 + KidWeight(kids, 0)
  }

  ghost function KidWeight(kids: seq<Tree>, i: nat): nat
    decreases kids, 16 - i
  {
    if i < |kids| && i < 16 then 1 + Weight(kids[i]) + KidWeight(kids, i + 1) else 0
  }

  ghost function FrameWeight<H>(f: Frame<H>, t: Tree): (w: nat)
    ensures w > 0
  {
    if f.child == 255 then Weight(t)
    else if t.Branch? && f.child == 16 then 1 + KidWeight(t.kids, 0)
    else if t.Branch? && 0 <= f.child < 16 then 1 + KidWeight(t.kids, f.child + 1)
    else 1
  }

  ghost function TrailWeight<H>(trail: seq<Frame<H>>, trees: seq<Tree>): nat
    requires |trail| == |trees|
    decreases |trail|
  {
    if trail == [] then 0
    else
      var n := |trail| - 1;
      FrameWeight(trail[n], trees[n]) + TrailWeight(trail[..n], trees[..n])
  }

  /** What a frame on top adds. */
  lemma Snoc<H>(trail: seq<Frame<H>>, trees: seq<Tree>, f: Frame<H>, t: Tree, k: Key)
    requires |trail| == |trees|
    ensures Rest(trail + [f], trees + [t]) == Pending(f, t) + Rest(trail, trees)
    ensures TrailWeight(trail + [f], trees + [t]) == FrameWeight(f, t) + TrailWeight(trail, trees)
    ensures Wanted(trail + [f], trees + [t], k) ==
              (if f.child == 255 then NotBelow(Entries(t, f.key), f.key + k) else Pending(f, t)) + Rest(trail, trees)
  {
    assert (trail + [f])[..|trail|] == trail && (trees + [t])[..|trail|] == trees;
  }

  lemma {:induction false} KidWeightMonotone(kids: seq<Tree>, i: nat, j: nat)
    requires i <= j
    ensures KidWeight(kids, j) <= KidWeight(kids, i)
    decreases j - i
  {
    if i < j { KidWeightMonotone(kids, i + 1, j); }
  }

  // ----- how the search narrows

  /** Every entry of a subtree is at or after the subtree's own prefix. */
  lemma EntriesAtOrAfter(t: Tree, pre: Key)
    requires Canonical(t)
    ensures NoneBelow(Entries(t, pre), pre)
    ensures NotBelow(Entries(t, pre), pre + []) == Entries(t, pre)
  {
    EntriesFrom(t, pre);
    forall e | e in Entries(t, pre) ensures !Less(e.0, pre) {
      var x := e.0[|pre|..];
      assert e.0 == pre + x && pre + [] == pre;
      LessPrefixed(pre, x, []);
    }
    assert pre + [] == pre;
    NotBelowAll(Entries(t, pre), pre);
  }

  /** Entering a two-item node whose key the search key does not continue: all of it, or none, is wanted. */
  lemma OffPath(t: Tree, pre: Key, k: Key)
    requires Canonical(t) && TwoItem(t) && !(t.key <= k)
    ensures Less(k, t.key) ==> NotBelow(Entries(t, pre), pre + k) == Entries(t, pre)
    ensures !Less(k, t.key) ==> NotBelow(Entries(t, pre), pre + k) == []
  {
    EntriesFrom(t, pre);
    forall e | e in Entries(t, pre) ensures Less(k, t.key) <==> !Less(e.0, pre + k) {
      var x := e.0[|pre|..];
      assert e.0 == pre + x && t.key <= x;
      LessPrefixed(pre, x, k);
      Diverge(k, t.key, x);
    }
    NotBelowAll(Entries(t, pre), pre + k);
  }

  /** A key that does not continue p is on the same side of every continuation of p. */
  lemma {:induction false} Diverge(k: Key, p: Key, x: Key)
    requires !(p <= k) && p <= x
    ensures Less(k, p) <==> !Less(x, k)
  {
    if k != [] && k[0] == p[0] {
      assert k == [k[0]] + k[1..] && p == [p[0]] + p[1..] && x == [x[0]] + x[1..];
      Diverge(k[1..], p[1..], x[1..]);
    }
  }

  /** Descending an extension whose key the search key continues. */
  lemma OnPath(t: Tree, pre: Key, k: Key)
    requires t.Ext? && t.key <= k
    ensures NotBelow(Entries(t, pre), pre + k) == NotBelow(Entries(t.child, pre + t.key), (pre + t.key) + k[|t.key|..])
  {
    assert (pre + t.key) + k[|t.key|..] == pre + k;
  }

  /** Reaching a leaf whose key the search key continues: it is wanted only if nothing is left to match. */
  lemma AtLeaf(t: Tree, pre: Key, k: Key)
    requires t.Leaf? && t.key <= k
    ensures NotBelow(Entries(t, pre), pre + k) == if k == t.key then [(pre + t.key, t.val)] else []
  {
    LessPrefixed(pre, t.key, k);
    var x := k[|t.key|..];
    assert k == t.key + x && t.key + [] == t.key;
    LessPrefixed(t.key, [], x);
  }

  /** Entering a branch with nibbles left to match: slots before the next nibble are not wanted, later ones are. */
  lemma AtBranch(t: Tree, pre: Key, k: Key)
    requires Canonical(t) && t.Branch? && k != []
    ensures NotBelow(Entries(t, pre), pre + k)
            == NotBelow(Entries(t.kids[k[0]], pre + [k[0]]), (pre + [k[0]]) + k[1..])
              + KidEntries(t.kids, pre, (k[0] as int) + 1)
  {
    var lo := pre + k;
    assert lo == (pre + [k[0]]) + k[1..];
    var here := Entries(t.kids[k[0]], pre + [k[0]]);
    var later := KidEntries(t.kids, pre, (k[0] as int) + 1);
    assert AllBelow(Own(t.val, pre), lo) by {
      LessBySlot(pre, 0, 1, [], []);
      assert pre + [] == pre;
      LessPrefixed(pre, [], k);
    }
    NotBelowAppend(Own(t.val, pre), KidEntries(t.kids, pre, 0), lo);
    SkipSlots(t, pre, k, 0);
    forall e | e in later ensures !Less(e.0, lo) {
      var j := KidEntrySlot(t.kids, pre, (k[0] as int) + 1, e);
      LessBySlot(pre, k[0], j, k[1..], e.0[|pre| + 1..]);
      NotBothWays(e.0, lo);
    }
    NotBelowAppend(here, later, lo);
  }

  lemma NotBothWays(a: Key, b: Key)
    requires Less(b, a)
    ensures !Less(a, b)
  {
    if Less(a, b) { LessTransitive(a, b, a); LessIrreflexive(a); }
  }

  lemma {:induction false} SkipSlots(t: Tree, pre: Key, k: Key, i: nat)
    requires Canonical(t) && t.Branch? && k != [] && i <= k[0]
    ensures NotBelow(KidEntries(t.kids, pre, i), pre + k) == NotBelow(KidEntries(t.kids, pre, k[0]), pre + k)
    decreases k[0] - i
  {
    if i < k[0] {
      var a := Entries(t.kids[i], pre + [i]);
      EntriesFrom(t.kids[i], pre + [i]);
      forall e | e in a ensures Less(e.0, pre + k) {
        var x := e.0[|pre| + 1..];
        assert e.0 == (pre + [i]) + x && pre + k == (pre + [k[0]]) + k[1..];
        LessBySlot(pre, i, k[0], x, k[1..]);
      }
      NotBelowAppend(a, KidEntries(t.kids, pre, i + 1), pre + k);
      SkipSlots(t, pre, k, i + 1);
    }
  }

  /** Entries of a branch from slot c on, where child c is searched for keys not below its prefix plus k. */
  ghost function SlotsWanted(t: Tree, pre: Key, c: int, k: Key): seq<Entry>
    requires t.Branch? && |t.kids| == 16
  {
    if 0 <= c < 16 then NotBelow(Entries(t.kids[c], pre + [c]), (pre + [c]) + k) + KidEntries(t.kids, pre, c + 1)
    else Slots(t, pre, c)
  }

  lemma SlotsAll(t: Tree, pre: Key, c: int)
    requires Canonical(t) && t.Branch?
    ensures SlotsWanted(t, pre, c, []) == Slots(t, pre, c)
  {
    if 0 <= c < 16 { EntriesAtOrAfter(t.kids[c], pre + [c]); }
  }

  lemma OwnFirst(t: Tree, pre: Key, rest: seq<Entry>)
    requires t.Branch? && t.val != []
    ensures [(pre, t.val)] + (Slots(t, pre, 0) + rest) == Slots(t, pre, 16) + rest
  {
    assert [(pre, t.val)] + (Slots(t, pre, 0) + rest) == ([(pre, t.val)] + Slots(t, pre, 0)) + rest;
  }

  /** An empty slot contributes nothing; the search goes on unrestricted. */
  lemma SlotEmpty(t: Tree, pre: Key, c: int, k: Key)
    requires Canonical(t) && t.Branch? && (0 <= c <= 16) && !Used(t.kids, t.val, c)
    ensures SlotsWanted(t, pre, c, k) == SlotsWanted(t, pre, Incremented(c), [])
  {
    SlotsAll(t, pre, Incremented(c));
  }

  // ----- one step of the walk

  /** The trail ends on an entry: a leaf that was reached, or a branch's own value. */
  ghost predicate Stands<H>(trail: seq<Frame<H>>, trees: seq<Tree>)
    requires |trail| == |trees|
  {
    && trail != []
    && var f, t := trail[|trail| - 1], trees[|trail| - 1];
       (t.Leaf? && f.child == 0) || (t.Branch? && f.child == 16 && t.val != [])
  }

  ghost function Top<H>(trail: seq<Frame<H>>, trees: seq<Tree>): Entry
    requires |trail| == |trees| && Stands(trail, trees)
  {
    (trail[|trail| - 1].key, trees[|trail| - 1].val)
  }

  /** The top frame is being entered and may be searched with a non-empty key. */
  ghost predicate Entering<H>(trail: seq<Frame<H>>) {
    trail != [] && trail[|trail| - 1].child == 255
  }

  lemma PopStep<H(!new)>(sha: Sha<H>, root: Tree, trail: seq<Frame<H>>, trees: seq<Tree>)
    requires |trail| == |trees| && trail != [] && TrailOk(sha, root, trail, trees)
    ensures var n := |trail| - 1;
            && TrailOk(sha, root, trail[..n], trees[..n])
            && Wanted(trail[..n], trees[..n], []) == Rest(trail[..n], trees[..n])
            && TrailWeight(trail[..n], trees[..n]) < TrailWeight(trail, trees)
  {
  }

  /** The top frame replaced by one for another tree of the trie. */
  lemma SwapStep<H(!new)>(sha: Sha<H>, root: Tree, trail: seq<Frame<H>>, trees: seq<Tree>, f: Frame<H>, t: Tree, k: Key)
    requires |trail| == |trees| && trail != [] && TrailOk(sha, root, trail, trees) && FrameOk(sha, root, f, t)
    ensures var n := |trail| - 1;
            var trail', trees' := trail[..n] + [f], trees[..n] + [t];
            && TrailOk(sha, root, trail', trees')
            && Rest(trail', trees') == Pending(f, t) + Rest(trail[..n], trees[..n])
            && TrailWeight(trail', trees') == FrameWeight(f, t) + TrailWeight(trail[..n], trees[..n])
            && (f.child == 255 ==>
              Wanted(trail', trees', k) == NotBelow(Entries(t, f.key), f.key + k) + Rest(trail[..n], trees[..n]))
  {
    var n := |trail| - 1;
    Snoc(trail[..n], trees[..n], f, t, k);
    SnocOk(sha, root, trail[..n], trees[..n], f, t);
  }

  /** The trail after entering child i, whose node is m, of the branch on top. */
  function Pushed<H>(trail: seq<Frame<H>>, i: Nibble, m: Node<H>): seq<Frame<H>>
    requires trail != []
  {
    var n := |trail| - 1;
    trail[..n] + [trail[n].(child := i)] + [Frame(m, trail[n].key + [i], 255)]
  }

  ghost function PushedTrees(trees: seq<Tree>, i: Nibble): seq<Tree>
    requires trees != [] && trees[|trees| - 1].Branch? && |trees[|trees| - 1].kids| == 16
  {
    trees + [trees[|trees| - 1].kids[i]]
  }

  lemma PushOk<H(!new)>(sha: Sha<H>, root: Tree, trail: seq<Frame<H>>, trees: seq<Tree>, i: Nibble, m: Node<H>)
    requires |trail| == |trees| && trail != [] && TrailOk(sha, root, trail, trees)
    requires trees[|trail| - 1].Branch? && |trees[|trail| - 1].kids| == 16 && m == Seal(sha, trees[|trail| - 1].kids[i])
    ensures TrailOk(sha, root, Pushed(trail, i, m), PushedTrees(trees, i))
  {
    var n := |trail| - 1;
    var f, t := trail[n], trees[n];
    var here, top := f.(child := i), Frame(m, f.key + [i], 255);
    UnderChild(sha, t, t.kids[i], root);
    SnocOk(sha, root, trail[..n], trees[..n], here, t);
    SnocOk(sha, root, trail[..n] + [here], trees[..n] + [t], top, t.kids[i]);
    assert trees == trees[..n] + [t];
  }

  lemma PushStep<H>(trail: seq<Frame<H>>, trees: seq<Tree>, i: Nibble, m: Node<H>, k: Key)
    requires |trail| == |trees| && trail != []
    requires trees[|trail| - 1].Branch? && |trees[|trail| - 1].kids| == 16
    ensures var n := |trail| - 1;
            var f, t := trail[n], trees[n];
            var trail', trees' := Pushed(trail, i, m), PushedTrees(trees, i);
            Wanted(trail', trees', k) == SlotsWanted(t, f.key, i, k) + Rest(trail[..n], trees[..n])
  {
    var n := |trail| - 1;
    var f, t := trail[n], trees[n];
    var below, belowTrees := trail[..n], trees[..n];
    var here, top := f.(child := i), Frame(m, f.key + [i], 255);
    assert trees == belowTrees + [t];
    Snoc(below, belowTrees, here, t, k);
    Snoc(below + [here], belowTrees + [t], top, t.kids[i], k);
    var entered, later := NotBelow(Entries(t.kids[i], top.key), top.key + k), Pending(here, t);
    assert (entered + later) + Rest(below, belowTrees) == entered + (later + Rest(below, belowTrees));
  }

  /** Entering child i, found from slot c on, leaves less to do. */
  lemma PushWeight<H>(trail: seq<Frame<H>>, trees: seq<Tree>, c: int, i: Nibble, m: Node<H>)
    requires |trail| == |trees| && trail != []
    requires trees[|trail| - 1].Branch? && |trees[|trail| - 1].kids| == 16
    requires trail[|trail| - 1].child == 255
             || (0 <= trail[|trail| - 1].child <= 16 && c == Incremented(trail[|trail| - 1].child))
    requires i >= if c == 16 then 0 else c
    ensures TrailWeight(Pushed(trail, i, m), PushedTrees(trees, i)) < TrailWeight(trail, trees)
  {
    var n := |trail| - 1;
    var f, t := trail[n], trees[n];
    var here, top := f.(child := i), Frame(m, f.key + [i], 255);
    assert trees == trees[..n] + [t];
    Snoc(trail[..n], trees[..n], here, t, []);
    Snoc(trail[..n] + [here], trees[..n] + [t], top, t.kids[i], []);
    KidWeightMonotone(t.kids, if c == 16 || f.child == 255 then 0 else c, i);
  }

  /** Follows a reference of a node on the trail. */
  method Fetch<H(==, !new)>(trie: GenericTrieDB<H>, r: Ref<H>, ghost t: Tree, ghost c: Tree) returns (m: Node<H>)
    requires trie.Valid() && Canonical(t) && Shaped(t) && Under(trie.sha, t, trie.tree) && r == RefOf(trie.sha, c)
             && !c.Nil?
    requires (t.Ext? && c == t.child) || (t.Branch? && c in t.kids)
    ensures m == Seal(trie.sha, c)
  {
    UnderChild(trie.sha, t, c, trie.tree);
    ghost var pre :| TrieBlocked.Below(trie.tree, pre, c);
    WithinBelow(trie.scope, trie.tree, pre, c);
    m := trie.Deref(r, c);
  }

  /** The first slot in use from c on, or 17; the search key is dropped as soon as a slot is passed over. */
  method FirstUsed<H>(sha: Sha<H>, n: Node<H>, c: int, k: Key, ghost t: Tree, ghost pre: Key)
      returns (child: int, k': Key)
    requires n == Seal(sha, t) && t.Branch? && Canonical(t)
    requires 0 <= c <= 17 && (k != [] ==> c < 16)
    ensures 0 <= child <= 17 && (child < 17 ==> Used(t.kids, t.val, child))
    ensures child < 16 ==> child >= if c == 16 then 0 else c
    ensures child >= 16 ==> k' == []
    ensures SlotsWanted(t, pre, child, k') == SlotsWanted(t, pre, c, k)
  {
    child, k' := c, k;
    while child != 17 && if child < 16 then n.refs[child].Empty? else n.val == []
      invariant 0 <= child <= 17 && (child >= 16 ==> k' == [])
      invariant child < 16 ==> child >= if c == 16 then 0 else c
      invariant SlotsWanted(t, pre, child, k') == SlotsWanted(t, pre, c, k)
      decreases if child == 16 then 18 else 17 - child
    {
      SlotEmpty(t, pre, child, k');
      k' := [];
      child := Incremented(child);
    }
  }

  /** Standing on the branch's own value. */
  lemma StopAtBranch<H(!new)>(sha: Sha<H>, root: Tree, trail: seq<Frame<H>>, trees: seq<Tree>)
    requires |trail| == |trees| && trail != [] && TrailOk(sha, root, trail, trees)
    requires trees[|trail| - 1].Branch? && trees[|trail| - 1].val != []
    ensures var n := |trail| - 1;
            var trail', trees' := trail[..n] + [trail[n].(child := 16)], trees[..n] + [trees[n]];
            && TrailOk(sha, root, trail', trees') && Stands(trail', trees')
            && [Top(trail', trees')] + Rest(trail', trees') ==
              Slots(trees[n], trail[n].key, 16) + Rest(trail[..n], trees[..n])
  {
    var n := |trail| - 1;
    SwapStep(sha, root, trail, trees, trail[n].(child := 16), trees[n], []);
    OwnFirst(trees[n], trail[n].key, Rest(trail[..n], trees[..n]));
  }

  /** Standing on a leaf, its key now complete. */
  lemma StopAtLeaf<H(!new)>(sha: Sha<H>, root: Tree, trail: seq<Frame<H>>, trees: seq<Tree>)
    requires |trail| == |trees| && trail != [] && TrailOk(sha, root, trail, trees) && trees[|trail| - 1].Leaf?
    ensures var n := |trail| - 1;
            var f, t := trail[n], trees[n];
            var trail', trees' := trail[..n] + [Frame(f.node, f.key + t.key, 0)], trees[..n] + [t];
            && TrailOk(sha, root, trail', trees') && Stands(trail', trees')
            && [Top(trail', trees')] + Rest(trail', trees') == [(f.key + t.key, t.val)] + Rest(trail[..n], trees[..n])
  {
    var n := |trail| - 1;
    var f, t := trail[n], trees[n];
    SwapStep(sha, root, trail, trees, Frame(f.node, f.key + t.key, 0), t, []);
    assert [] + Rest(trail[..n], trees[..n]) == Rest(trail[..n], trees[..n]);
  }

  /** From an extension to its child m, the search key shortened by the extension's key or dropped. */
  lemma DownExt<H(!new)>(sha: Sha<H>, root: Tree, trail: seq<Frame<H>>, trees: seq<Tree>, m: Node<H>, k: Key)
    requires |trail| == |trees| && Entering(trail) && TrailOk(sha, root, trail, trees) && trees[|trail| - 1].Ext?
    requires m == Seal(sha, trees[|trail| - 1].child)
    requires trees[|trail| - 1].key <= k || Less(k, trees[|trail| - 1].key)
    ensures var n := |trail| - 1;
            var f, t := trail[n], trees[n];
            var trail', trees' := trail[..n] + [Frame(m, f.key + t.key, 255)], trees[..n] + [t.child];
            && TrailOk(sha, root, trail', trees')
            && Wanted(trail', trees', if t.key <= k then k[|t.key|..] else []) == Wanted(trail, trees, k)
            && TrailWeight(trail', trees') < TrailWeight(trail, trees)
  {
    var n := |trail| - 1;
    var f, t := trail[n], trees[n];
    UnderChild(sha, t, t.child, root);
    SwapStep(sha, root, trail, trees, Frame(m, f.key + t.key, 255), t.child, if t.key <= k then k[|t.key|..] else []);
    if t.key <= k {
      OnPath(t, f.key, k);
    } else {
      OffPath(t, f.key, k);
      EntriesAtOrAfter(t.child, f.key + t.key);
    }
  }

  /** Entering a leaf or an extension: stop on it, pass over it, or go down. */
  method EnterTwoItem<H(==, !new)>(trie: GenericTrieDB<H>, trail: seq<Frame<H>>, ghost trees: seq<Tree>, k: Key)
    returns (trail': seq<Frame<H>>, ghost trees': seq<Tree>, k': Key, found: bool)
    requires trie.Valid() && |trail| == |trees| && TrailOk(trie.sha, trie.tree, trail, trees)
    requires Entering(trail) && TwoItem(trees[|trail| - 1])
    ensures |trail'| == |trees'| && TrailOk(trie.sha, trie.tree, trail', trees')
    ensures k' != [] ==> Entering(trail')
    ensures found ==> Stands(trail', trees') && [Top(trail', trees')] + Rest(trail', trees') == Wanted(trail, trees, k)
    ensures !found ==> Wanted(trail', trees', k') == Wanted(trail, trees, k)
    ensures !found ==> TrailWeight(trail', trees') < TrailWeight(trail, trees)
  {
    var n := |trail| - 1;
    var f := trail[n];
    ghost var t := trees[n];
    var key := f.node.key;
    k' := if key <= k then k[|key|..] else [];
    if f.node.ExtNode? && (key <= k || Less(k, key)) {
      var m := Fetch(trie, f.node.ref, t, t.child);
      DownExt(trie.sha, trie.tree, trail, trees, m, k);
      trail', trees', found := trail[..n] + [Frame(m, f.key + key, 255)], trees[..n] + [t.child], false;
      return;
    }
    if key <= k { AtLeaf(t, f.key, k); } else { OffPath(t, f.key, k); }
    if (key <= k || Less(k, key)) && k' == [] {
      StopAtLeaf(trie.sha, trie.tree, trail, trees);
      trail', trees', found := trail[..n] + [Frame(f.node, f.key + key, 0)], trees[..n] + [t], true;
    } else {
      PopStep(trie.sha, trie.tree, trail, trees);
      trail', trees', k', found := trail[..n], trees[..n], [], false;
    }
  }

  /** At a branch: stop on its value, enter a child, or leave it. */
  method Scan<H(==, !new)>(trie: GenericTrieDB<H>, trail: seq<Frame<H>>, ghost trees: seq<Tree>, c: int, k: Key)
    returns (trail': seq<Frame<H>>, ghost trees': seq<Tree>, k': Key, found: bool)
    requires trie.Valid() && |trail| == |trees| && TrailOk(trie.sha, trie.tree, trail, trees)
    requires trail != [] && trees[|trail| - 1].Branch? && 0 <= c <= 17 && (k != [] ==> c < 16)
    requires trail[|trail| - 1].child == 255 || c == Incremented(trail[|trail| - 1].child)
    ensures |trail'| == |trees'| && TrailOk(trie.sha, trie.tree, trail', trees')
    ensures k' != [] ==> Entering(trail')
    ensures var n := |trail| - 1;
            var goal := SlotsWanted(trees[n], trail[n].key, c, k) + Rest(trail[..n], trees[..n]);
            if found then Stands(trail', trees') && [Top(trail', trees')] + Rest(trail', trees') == goal
            else Wanted(trail', trees', k') == goal
    ensures !found ==> TrailWeight(trail', trees') < TrailWeight(trail, trees)
  {
    var n := |trail| - 1;
    var f := trail[n];
    ghost var t := trees[n];
    var child;
    child, k' := FirstUsed(trie.sha, f.node, c, k, t, f.key);
    found := child == 16;
    if child == 17 {
      PopStep(trie.sha, trie.tree, trail, trees);
      trail', trees' := trail[..n], trees[..n];
    } else if child == 16 {
      StopAtBranch(trie.sha, trie.tree, trail, trees);
      trail', trees' := trail[..n] + [f.(child := 16)], trees[..n] + [t];
    } else {
      var m := Fetch(trie, f.node.refs[child], t, t.kids[child]);
      PushOk(trie.sha, trie.tree, trail, trees, child, m);
      PushStep(trail, trees, child, m, k');
      PushWeight(trail, trees, c, child, m);
      trail', trees' := Pushed(trail, child, m), PushedTrees(trees, child);
    }
  }

  /** The loop of next(key): steps until the trail stands on an entry or is exhausted. */
  method Walk<H(==, !new)>(trie: GenericTrieDB<H>, trail0: seq<Frame<H>>, ghost trees0: seq<Tree>, key: Key)
    returns (trail: seq<Frame<H>>, ghost trees: seq<Tree>)
    requires trie.Valid() && |trail0| == |trees0| && TrailOk(trie.sha, trie.tree, trail0, trees0)
    requires key != [] ==> Entering(trail0)
    ensures |trail| == |trees| && TrailOk(trie.sha, trie.tree, trail, trees)
    ensures trail != [] ==>
            Stands(trail, trees) && [Top(trail, trees)] + Rest(trail, trees) == Wanted(trail0, trees0, key)
    ensures trail == [] ==> Wanted(trail0, trees0, key) == []
  {
    var k := key;
    trail, trees := trail0, trees0;
    while trail != []
      invariant |trail| == |trees| && TrailOk(trie.sha, trie.tree, trail, trees)
      invariant Wanted(trail, trees, k) == Wanted(trail0, trees0, key)
      invariant k != [] ==> Entering(trail)
      decreases TrailWeight(trail, trees)
    {
      var n := |trail| - 1;
      var f := trail[n];
      var found := false;
      if f.child == 255 && (f.node.LeafNode? || f.node.ExtNode?) {
        trail, trees, k, found := EnterTwoItem(trie, trail, trees, k);
      } else if f.node.BranchNode? {
        var c := EnterBranch(f, k, trees[n], Rest(trail[..n], trees[..n]));
        k := if k == [] then [] else k[1..];
        trail, trees, k, found := Scan(trie, trail, trees, c, k);
      } else {
        PopStep(trie.sha, trie.tree, trail, trees);
        trail, trees, k := trail[..n], trees[..n], [];
      }
      if found { return; }
    }
  }

  /** The slot at which to look first: the next one, or on entering the one the search key names. */
  method EnterBranch<H>(f: Frame<H>, k: Key, ghost t: Tree, ghost rest: seq<Entry>) returns (c: int)
    requires Canonical(t) && t.Branch? && (f.child == 255 || (k == [] && 0 <= f.child <= 16))
    ensures 0 <= c <= 17 && (k != [] ==> c < 16) && (f.child == 255 || c == Incremented(f.child))
    ensures f.child == 255 ==>
              SlotsWanted(t, f.key, c, if k == [] then [] else k[1..]) == NotBelow(Entries(t, f.key), f.key + k)
    ensures f.child != 255 ==> SlotsWanted(t, f.key, c, []) == Pending(f, t)
  {
    if f.child != 255 {
      c := Incremented(f.child);
      SlotsAll(t, f.key, c);
    } else if k != [] {
      c := k[0];
      AtBranch(t, f.key, k);
    } else {
      c := 16;
      EntriesAtOrAfter(t, f.key);
    }
  }

  class Iterator<H(==, !new)> {
    const that: GenericTrieDB<H>
    var trail: seq<Frame<H>>
    ghost var trees: seq<Tree>

    ghost predicate Valid()
      reads this, that, that.db
    {
      that.Valid() && |trail| == |trees| && TrailOk(that.sha, that.tree, trail, trees)
    }

    /** The iterator stands on an entry: a leaf, or a branch's own value. */
    ghost predicate OnEntry()
      reads this
    {
      |trail| == |trees| && Stands(trail, trees)
    }

    ghost function Ahead(): seq<Entry>
      reads this
      requires |trail| == |trees|
    {
      Rest(trail, trees)
    }

    ghost function Current(): Entry
      reads this
      requires OnEntry()
    {
      Top(trail, trees)
    }

    /** begin(). */
    constructor Begin(trie: GenericTrieDB<H>)
      requires trie.Valid()
      ensures Valid() && that == trie
      ensures trail != [] ==> OnEntry() && [Current()] + Ahead() == Entries(trie.tree, [])
      ensures trail == [] ==> Entries(trie.tree, []) == []
    {
      that := trie;
      trail, trees := [], [];
      new;
      Start();
      EntriesAtOrAfter(trie.tree, []);
      Advance([]);
    }

    /** lower_bound(key). */
    constructor LowerBound(trie: GenericTrieDB<H>, key: Key)
      requires trie.Valid()
      ensures Valid() && that == trie
      ensures trail != [] ==> OnEntry() && [Current()] + Ahead() == NotBelow(Entries(trie.tree, []), key)
      ensures trail == [] ==> NotBelow(Entries(trie.tree, []), key) == []
    {
      that := trie;
      trail, trees := [], [];
      new;
      Start();
      assert [] + key == key;
      Advance(key);
    }

    method Start()
      requires that.Valid() && trail == [] && trees == []
      modifies this
      ensures Valid() && |trail| == 1 && trail[0].child == 255 && trail[0].key == [] && trees == [that.tree]
      ensures forall k :: Wanted(trail, trees, k) == NotBelow(Entries(that.tree, []), [] + k)
    {
      CanonicalShaped(that.tree);
      var n := that.Node(that.root, that.tree);
      UnderSelf(that.sha, that.tree);
      trail := [Frame(n, [], 255)];
      trees := [that.tree];
      assert forall k :: NotBelow(Entries(that.tree, []), [] + k) + [] == NotBelow(Entries(that.tree, []), [] + k);
    }

    /** operator++: the first entry ahead becomes the current one. */
    method Next()
      requires Valid() && (trail != [] ==> OnEntry())
      modifies this
      ensures Valid()
      ensures trail != [] ==> OnEntry() && [Current()] + Ahead() == old(Ahead())
      ensures trail == [] <==> old(Ahead()) == []
    {
      Advance([]);
    }

    /** The entries from the current one on, none at the end. */
    ghost function Left(): seq<Entry>
      reads this
      requires trail != [] ==> OnEntry()
    {
      if trail == [] then [] else [Current()] + Ahead()
    }

    /** Reads the current entry and moves on. */
    method Pop() returns (e: Entry)
      requires Valid() && trail != [] && OnEntry()
      modifies this
      ensures Valid() && (trail != [] ==> OnEntry())
      ensures [e] + Left() == old(Left())
    {
      e := At();
      Next();
    }

    /** The entry the iterator stands on. */
    method At() returns (e: Entry)
      requires Valid() && OnEntry()
      ensures e == Current()
    {
      var f := trail[|trail| - 1];
      e := (f.key, f.node.val);
    }

    /** next(key) and, with the empty search key, next(). */
    method Advance(key: Key)
      requires Valid() && (key != [] ==> trail != [] && trail[|trail| - 1].child == 255)
      modifies this
      ensures Valid()
      ensures trail != [] ==> OnEntry() && [Current()] + Ahead() == old(Wanted(trail, trees, key))
      ensures trail == [] <==> old(Wanted(trail, trees, key)) == []
    {
      trail, trees := Walk(that, trail, trees, key);
    }
  }
  lemma EntryIff(t: Tree, e: Entry)
    requires Canonical(t)
    ensures e in Entries(t, []) <==> e.1 != [] && Get(t, e.0) == e.1
  {
    EntriesFrom(t, []);
    if e in Entries(t, []) { assert From(t, [], e) && e.0[0..] == e.0; }
    if e.1 != [] && Get(t, e.0) == e.1 { EntriesComplete(t, [], e.0); assert [] + e.0 == e.0; }
  }

  lemma NotBelowContents(t: Tree, key: Key)
    requires Canonical(t)
    ensures Ascending(NotBelow(Entries(t, []), key))
    ensures forall e: Entry :: e in NotBelow(Entries(t, []), key) <==>
            e.1 != [] && Get(t, e.0) == e.1 && !Less(e.0, key)
  {
    EntriesAscend(t, []);
    NotBelowExact(Entries(t, []), key);
    forall e: Entry ensures e in Entries(t, []) <==> e.1 != [] && Get(t, e.0) == e.1 { EntryIff(t, e); }
  }

  /**
   * Iteration from lower_bound(key) to the end: exactly the stored keys not below key, each once,
   * in ascending order and with its own value.
   */
  method Collect<H(==, !new)>(trie: GenericTrieDB<H>, key: Key) returns (s: seq<Entry>)
    requires trie.Valid()
    ensures Ascending(s)
    ensures forall e: Entry :: e in s <==> e.1 != [] && Get(trie.tree, e.0) == e.1 && !Less(e.0, key)
  {
    var it := new Iterator<H>.LowerBound(trie, key);
    s := Drain(it);
    NotBelowContents(trie.tree, key);
  }

  lemma MoveOne(s: seq<Entry>, e: Entry, left: seq<Entry>)
    ensures s + ([e] + left) == (s + [e]) + left
  {
  }

  /** Advances an iterator to the end of the trie. */
  method Drain<H(==, !new)>(it: Iterator<H>) returns (s: seq<Entry>)
    requires it.Valid() && (it.trail != [] ==> it.OnEntry())
    modifies it
    ensures it.trail == []
    ensures s == old(it.Left())
  {
    s := [];
    ghost var all := it.Left();
    while it.trail != []
      invariant it.Valid() && (it.trail != [] ==> it.OnEntry())
      invariant s + it.Left() == all
      decreases |all| - |s|
    {
      var e := it.Pop();
      MoveOne(s, e, it.Left());
      s := s + [e];
    }
  }
}
