/**
 * TrieHash.cpp: the one-shot builder. From a key-sorted list it produces the root node of the
 * trie directly, by recursion over ranges of the list, and never touches a store.
 */
module TrieHash {
  import opened Nibbles
  import opened Trie
  import opened TrieNode

  type Entry = (Key, Bytes)

  /** Strictly ascending keys and no empty value: the contents of a HexMap. */
  ghost predicate Sorted(s: seq<Entry>) {
    && (forall i, j :: 0 <= i < j < |s| ==> Less(s[i].0, s[j].0))
    && (forall i :: 0 <= i < |s| ==> s[i].1 != [])
  }

  /** All keys of s[lo..hi] begin with the same pre nibbles. */
  ghost predicate Common(s: seq<Entry>, lo: nat, hi: nat, pre: nat)
    requires lo <= hi <= |s|
  {
    forall i :: lo <= i < hi ==> pre <= |s[i].0| && pre <= |s[lo].0| && s[i].0[..pre] == s[lo].0[..pre]
  }

  /** The keys of s[lo..hi] share no more than their first pre nibbles. */
  ghost predicate Maximal(s: seq<Entry>, lo: nat, hi: nat, pre: nat)
    requires lo < hi <= |s| && Common(s, lo, hi, pre)
  {
    pre == |s[lo].0| || exists i :: lo < i < hi && (|s[i].0| == pre || s[i].0[pre] != s[lo].0[pre])
  }

  lemma MaximalMeans(s: seq<Entry>, lo: nat, hi: nat, pre: nat, p: nat)
    requires lo < hi <= |s| && Common(s, lo, hi, pre) && Maximal(s, lo, hi, pre)
    requires p >= pre && Common(s, lo, hi, p)
    ensures p == pre
  {
    if p > pre && pre < |s[lo].0| {
      var i :| lo < i < hi && (|s[i].0| == pre || s[i].0[pre] != s[lo].0[pre]);
      PrefixAgrees(s[i].0, s[lo].0, p);
    }
  }

  /** The tree holds exactly the entries of s[lo..hi], each without its first pre nibbles. */
  ghost predicate Holds(t: Tree, s: seq<Entry>, lo: nat, hi: nat, pre: nat)
    requires lo <= hi <= |s| && Common(s, lo, hi, pre)
  {
    && (forall i :: lo <= i < hi ==> Get(t, s[i].0[pre..]) == s[i].1)
    && (forall k :: Get(t, k) != [] ==> exists i :: lo <= i < hi && IsEntry(s, i, pre, k))
  }

  /** Entry i has the key k after its first pre nibbles. */
  ghost predicate IsEntry(s: seq<Entry>, i: int, pre: nat, k: Key) {
    0 <= i < |s| && pre <= |s[i].0| && s[i].0[pre..] == k
  }

  lemma {:induction false} LessAfterPrefix(a: Key, b: Key, p: nat)
    requires p <= |a| && p <= |b| && a[..p] == b[..p] && Less(a, b)
    ensures Less(a[p..], b[p..])
  {
    if p > 0 {
      assert a[0] == a[..p][0] == b[..p][0] == b[0];
      assert Less(a[1..], b[1..]) by { LessIrreflexive(a); }
      assert a[1..][..p - 1] == a[..p][1..] == b[..p][1..] == b[1..][..p - 1];
      LessAfterPrefix(a[1..], b[1..], p - 1);
      assert a[1..][p - 1..] == a[p..] && b[1..][p - 1..] == b[p..];
    } else {
      assert a[0..] == a && b[0..] == b;
    }
  }

  lemma {:induction false} LessIrreflexive(a: Key)
    ensures !Less(a, a)
  {
    if a != [] { LessIrreflexive(a[1..]); }
  }

  /** In a sorted range with a common prefix, the next nibbles ascend, and only the first key can end there. */
  lemma NextNibbles(s: seq<Entry>, lo: nat, hi: nat, pre: nat, i: nat, j: nat)
    requires lo <= i < j < hi <= |s| && Sorted(s) && Common(s, lo, hi, pre)
    ensures |s[j].0| > pre
    ensures |s[i].0| > pre ==> s[i].0[pre] <= s[j].0[pre]
  {
    assert s[i].0[..pre] == s[lo].0[..pre] == s[j].0[..pre];
    LessAfterPrefix(s[i].0, s[j].0, pre);
  }

  /** The number of leading nibbles that all keys of s[lo..hi] share, at least pre. */
  method SharedPrefix(s: seq<Entry>, lo: nat, hi: nat, pre: nat) returns (sharedPre: nat)
    requires lo + 1 < hi <= |s| && Sorted(s) && Common(s, lo, hi, pre)
    ensures pre <= sharedPre <= |s[lo].0| && Common(s, lo, hi, sharedPre)
    ensures Maximal(s, lo, hi, sharedPre)
  {
    var first := s[lo].0;
    sharedPre := |first|;  // no bound yet: every later bound is capped by the first key's length anyway
    var i := lo + 1;
    while i < hi && sharedPre > 0
      invariant lo < i <= hi && pre <= sharedPre <= |first|
      invariant Common(s, lo, i, sharedPre)
      invariant sharedPre < |first| ==>
                  exists j :: lo < j < i && (|s[j].0| == sharedPre || s[j].0[sharedPre] != first[sharedPre])
    {
      var here := s[i].0;
      var x := if sharedPre < |here| then sharedPre else |here|;
      var shared := pre;
      assert here[..pre] == first[..pre];
      while shared < x && first[shared] == here[shared]
        invariant pre <= shared <= x && here[..shared] == first[..shared]
      {
        assert here[..shared + 1] == here[..shared] + [here[shared]];
        assert first[..shared + 1] == first[..shared] + [first[shared]];
        shared := shared + 1;
      }
      forall j | lo <= j < i + 1 ensures shared <= |s[j].0| && s[j].0[..shared] == first[..shared] {
        if j < i { assert s[j].0[..shared] == s[j].0[..sharedPre][..shared] == first[..sharedPre][..shared]; }
      }
      sharedPre := if shared < sharedPre then shared else sharedPre;
      i := i + 1;
    }
  }

  method Hash256Rlp<H>(sha: Sha<H>, s: seq<Entry>, lo: nat, hi: nat, pre: nat, ghost max: nat)
    returns (n: Node<H>, ghost t: Tree)
    requires lo <= hi <= |s| && Sorted(s) && Common(s, lo, hi, pre)
    requires forall i :: 0 <= i < |s| ==> |s[i].0| <= max
    requires pre <= max
    ensures n == Seal(sha, t) && Canonical(t) && Holds(t, s, lo, hi, pre)
    ensures lo < hi ==> !t.Nil?
    ensures lo + 1 < hi && Maximal(s, lo, hi, pre) ==> t.Branch?
    decreases max - pre, 2
  {
    if lo == hi {
      n, t := NullNode, Nil;
    } else if lo + 1 == hi {
      n, t := LeafNode(s[lo].0[pre..], s[lo].1), Leaf(s[lo].0[pre..], s[lo].1);
      assert IsEntry(s, lo, pre, s[lo].0[pre..]);
    } else {
      var sharedPre := SharedPrefix(s, lo, hi, pre);
      if sharedPre > pre {
        var ref;
        ghost var c;
        ref, c := Hash256Aux(sha, s, lo, hi, sharedPre, max);
        n := ExtNode(s[lo].0[pre..sharedPre], ref);
        t := Ext(s[lo].0[pre..sharedPre], c);
        if Maximal(s, lo, hi, pre) { MaximalMeans(s, lo, hi, pre, sharedPre); }
        ExtHoldsRange(c, s, lo, hi, pre, sharedPre);
      } else {
        n, t := Enumerate(sha, s, lo, hi, pre, max);
      }
    }
  }

  /** An extension over a tree for the longer prefix holds the range for the shorter one. */
  lemma ExtHoldsRange(c: Tree, s: seq<Entry>, lo: nat, hi: nat, pre: nat, p: nat)
    requires lo < hi <= |s| && pre < p && Common(s, lo, hi, pre) && Common(s, lo, hi, p)
    requires Holds(c, s, lo, hi, p)
    ensures Holds(Ext(s[lo].0[pre..p], c), s, lo, hi, pre)
  {
    var key := s[lo].0[pre..p];
    var t := Ext(key, c);
    forall i | lo <= i < hi ensures s[i].0[pre..] == key + s[i].0[p..] {
      assert s[i].0[..p] == s[lo].0[..p];
      assert s[i].0[pre..p] == s[i].0[..p][pre..] == s[lo].0[..p][pre..] == key;
    }
    forall i | lo <= i < hi ensures Get(t, s[i].0[pre..]) == s[i].1 { ExtHolds(key, c, s[i].0[p..]); }
    forall k | Get(t, k) != [] ensures exists i :: lo <= i < hi && IsEntry(s, i, pre, k) {
      assert k == key + k[|key|..] && Get(c, k[|key|..]) != [];
      var i :| lo <= i < hi && IsEntry(s, i, p, k[|key|..]);
      assert s[i].0[pre..] == key + s[i].0[p..];
      assert IsEntry(s, i, pre, k);
    }
  }

  /** The slot of a branch at depth pre that entry m belongs to, and its key below that slot. */
  ghost predicate InSlot(s: seq<Entry>, m: int, pre: nat, j: int, k: Key) {
    0 <= m < |s| && pre < |s[m].0| && s[m].0[pre] == j && s[m].0[pre + 1..] == k
  }

  /** Whatever c holds is an entry of s[from..to] with the nibble j after the prefix. */
  ghost predicate SlotFrom(s: seq<Entry>, from: nat, to: nat, pre: nat, j: int, c: Tree) {
    forall k :: Get(c, k) != [] ==> exists m :: from <= m < to && InSlot(s, m, pre, j, k)
  }

  lemma SlotGrows(s: seq<Entry>, from: nat, to: nat, further: nat, pre: nat, j: int, c: Tree)
    requires SlotFrom(s, from, to, pre, j, c) && to <= further
    ensures SlotFrom(s, from, further, pre, j, c)
  {
    forall k | Get(c, k) != [] ensures exists m :: from <= m < further && InSlot(s, m, pre, j, k) {
      var m :| from <= m < to && InSlot(s, m, pre, j, k);
    }
  }

  lemma SlotStarts(s: seq<Entry>, from: nat, later: nat, to: nat, pre: nat, j: int, c: Tree)
    requires SlotFrom(s, later, to, pre, j, c) && from <= later
    ensures SlotFrom(s, from, to, pre, j, c)
  {
    forall k | Get(c, k) != [] ensures exists m :: from <= m < to && InSlot(s, m, pre, j, k) {
      var m :| later <= m < to && InSlot(s, m, pre, j, k);
    }
  }

  /** The child for nibble i: the entries from b on that continue with i. */
  method Slot<H>(sha: Sha<H>, s: seq<Entry>, lo: nat, hi: nat, pre: nat, ghost start: nat, b: nat, i: Nibble,
                 ghost max: nat)
    returns (ref: Ref<H>, e: nat, ghost c: Tree)
    requires lo <= start <= b <= hi <= |s| && Sorted(s) && Common(s, lo, hi, pre)
    requires forall m :: start <= m < hi ==> |s[m].0| > pre
    requires forall m :: b <= m < hi ==> s[m].0[pre] >= i
    requires forall i :: 0 <= i < |s| ==> |s[i].0| <= max
    requires pre <= max
    ensures b <= e <= hi && ref == RefOf(sha, c) && Canonical(c)
    ensures forall m :: e <= m < hi ==> s[m].0[pre] > i
    ensures forall m :: b <= m < e ==> s[m].0[pre] == i && Get(c, s[m].0[pre + 1..]) == s[m].1
    ensures SlotFrom(s, b, e, pre, i, c)
    decreases max - pre, 0
  {
    e := b;
    while e < hi && s[e].0[pre] == i
      invariant b <= e <= hi && forall m :: b <= m < e ==> s[m].0[pre] == i
    {
      e := e + 1;
    }
    forall m | e <= m < hi ensures s[m].0[pre] > i { if m > e { NextNibbles(s, lo, hi, pre, e, m); } }
    if b == e {
      ref, c := Empty, Nil;
    } else {
      CommonDeeper(s, lo, hi, pre, b, e, i);
      ref, c := Hash256Aux(sha, s, b, e, pre + 1, max);
      forall k | Get(c, k) != [] ensures exists m :: b <= m < e && InSlot(s, m, pre, i, k) {
        var m :| b <= m < e && IsEntry(s, m, pre + 1, k);
        assert InSlot(s, m, pre, i, k);
      }
    }
  }

  /** The branch case: one child for each next nibble, and the value of a key that ends here. */
  method Enumerate<H>(sha: Sha<H>, s: seq<Entry>, lo: nat, hi: nat, pre: nat, ghost max: nat)
    returns (n: Node<H>, ghost t: Tree)
    requires lo + 1 < hi <= |s| && Sorted(s) && Common(s, lo, hi, pre) && Maximal(s, lo, hi, pre)
    requires forall i :: 0 <= i < |s| ==> |s[i].0| <= max
    requires pre <= max
    ensures n == Seal(sha, t) && Canonical(t) && t.Branch? && Holds(t, s, lo, hi, pre)
    decreases max - pre, 1
  {
    var start := if pre == |s[lo].0| then lo + 1 else lo;
    forall m | start <= m < hi ensures |s[m].0| > pre { if m > lo { NextNibbles(s, lo, hi, pre, lo, m); } }
    var b, refs := start, [];
    ghost var kids: seq<Tree> := [];
    for i := 0 to 16
      invariant start <= b <= hi && |refs| == |kids| == i
      invariant forall j :: 0 <= j < i ==> refs[j] == RefOf(sha, kids[j]) && Canonical(kids[j])
      invariant forall m :: b <= m < hi ==> s[m].0[pre] >= i
      invariant forall m :: start <= m < b ==> s[m].0[pre] < i && Get(kids[s[m].0[pre]], s[m].0[pre + 1..]) == s[m].1
      invariant forall j :: 0 <= j < i ==> SlotFrom(s, start, b, pre, j, kids[j])
    {
      var ref, e;
      ghost var c;
      ref, e, c := Slot(sha, s, lo, hi, pre, start, b, i, max);
      forall j | 0 <= j < i ensures SlotFrom(s, start, e, pre, j, kids[j]) {
        SlotGrows(s, start, b, e, pre, j, kids[j]);
      }
      SlotStarts(s, start, b, e, pre, i, c);
      refs, kids := refs + [ref], kids + [c];
      b := e;
    }
    var val := if pre == |s[lo].0| then s[lo].1 else [];
    n, t := BranchNode(refs, val), Branch(kids, val);
    assert refs == Seal(sha, t).refs;
    BranchHoldsRange(kids, val, s, lo, hi, pre, start);
    TwoSlots(kids, val, s, lo, hi, pre, start);
  }

  lemma CommonDeeper(s: seq<Entry>, lo: nat, hi: nat, pre: nat, b: nat, e: nat, i: int)
    requires lo <= b < e <= hi <= |s| && Common(s, lo, hi, pre)
    requires forall m :: b <= m < e ==> |s[m].0| > pre && s[m].0[pre] == i
    ensures Common(s, b, e, pre + 1)
  {
    forall m | b <= m < e ensures s[m].0[..pre + 1] == s[b].0[..pre + 1] {
      assert s[m].0[..pre] == s[lo].0[..pre] == s[b].0[..pre];
      assert s[m].0[..pre + 1] == s[m].0[..pre] + [s[m].0[pre]];
      assert s[b].0[..pre + 1] == s[b].0[..pre] + [s[b].0[pre]];
    }
  }

  lemma BranchHoldsRange(kids: seq<Tree>, val: Bytes, s: seq<Entry>, lo: nat, hi: nat, pre: nat, start: nat)
    requires lo < hi <= |s| && Common(s, lo, hi, pre) && |kids| == 16 && Sorted(s)
    requires start == if pre == |s[lo].0| then lo + 1 else lo
    requires val == if pre == |s[lo].0| then s[lo].1 else []
    requires forall m :: start <= m < hi ==> |s[m].0| > pre
    requires forall m :: start <= m < hi ==> Get(kids[s[m].0[pre]], s[m].0[pre + 1..]) == s[m].1
    requires forall j :: 0 <= j < 16 ==> SlotFrom(s, start, hi, pre, j, kids[j])
    ensures Holds(Branch(kids, val), s, lo, hi, pre)
  {
    var t := Branch(kids, val);
    forall i | lo <= i < hi ensures Get(t, s[i].0[pre..]) == s[i].1 {
      if i >= start {
        assert s[i].0[pre..][1..] == s[i].0[pre + 1..];
      }
    }
    forall k | Get(t, k) != [] ensures exists i :: lo <= i < hi && IsEntry(s, i, pre, k) {
      if k == [] {
        assert IsEntry(s, lo, pre, k);
      } else {
        assert SlotFrom(s, start, hi, pre, k[0], kids[k[0]]) && Get(kids[k[0]], k[1..]) != [];
        var m :| start <= m < hi && InSlot(s, m, pre, k[0], k[1..]);
        assert s[m].0[pre..] == [s[m].0[pre]] + s[m].0[pre + 1..] == k;
        assert IsEntry(s, m, pre, k);
      }
    }
  }

  lemma TwoSlots(kids: seq<Tree>, val: Bytes, s: seq<Entry>, lo: nat, hi: nat, pre: nat, start: nat)
    requires lo + 1 < hi <= |s| && Common(s, lo, hi, pre) && Maximal(s, lo, hi, pre) && |kids| == 16 && Sorted(s)
    requires start == if pre == |s[lo].0| then lo + 1 else lo
    requires val == if pre == |s[lo].0| then s[lo].1 else []
    requires forall m :: start <= m < hi ==> |s[m].0| > pre
    requires forall m :: start <= m < hi ==> Get(kids[s[m].0[pre]], s[m].0[pre + 1..]) == s[m].1
    ensures TwoUsed(kids, val)
  {
    forall m | start <= m < hi ensures Used(kids, val, s[m].0[pre]) { assert s[m].1 != []; }
    if pre == |s[lo].0| {
      assert Used(kids, val, s[lo + 1].0[pre]) && Used(kids, val, 16);
    } else {
      var i :| lo < i < hi && (|s[i].0| == pre || s[i].0[pre] != s[lo].0[pre]);
      var a, b := s[lo].0[pre], s[i].0[pre];
      assert Used(kids, val, a) && Used(kids, val, b);
      assert a < b || b < a;
    }
  }

  method Hash256Aux<H>(sha: Sha<H>, s: seq<Entry>, lo: nat, hi: nat, pre: nat, ghost max: nat)
    returns (r: Ref<H>, ghost t: Tree)
    requires lo < hi <= |s| && Sorted(s) && Common(s, lo, hi, pre)
    requires forall i :: 0 <= i < |s| ==> |s[i].0| <= max
    requires pre <= max
    ensures r == RefOf(sha, t) && Canonical(t) && !t.Nil? && Holds(t, s, lo, hi, pre)
    ensures lo + 1 < hi && Maximal(s, lo, hi, pre) ==> t.Branch?
    decreases max - pre, 3
  {
    var n;
    n, t := Hash256Rlp(sha, s, lo, hi, pre, max);
    r := if Size(n) < 32 then Inline(n) else Digest(sha(n));
  }
  /** s lists the contents of the tree, in order. */
  ghost predicate Lists(s: seq<Entry>, t: Tree) {
    Sorted(s) && Holds(t, s, 0, |s|, 0)
  }

  lemma ListedValue(s: seq<Entry>, t: Tree, k: Key)
    requires Lists(s, t)
    ensures Get(t, k) == [] || exists i :: IsEntry(s, i, 0, k) && Get(t, k) == s[i].1
    ensures forall i :: IsEntry(s, i, 0, k) ==> Get(t, k) == s[i].1
  {
    forall i | IsEntry(s, i, 0, k) ensures Get(t, k) == s[i].1 { assert s[i].0[0..] == s[i].0; }
  }

  /** Two trees with the same listing hold the same values. */
  lemma SameListing(s: seq<Entry>, a: Tree, b: Tree)
    requires Lists(s, a) && Lists(s, b)
    ensures SameContents(a, b)
  {
    forall k ensures Get(a, k) == Get(b, k) { ListedValue(s, a, k); ListedValue(s, b, k); }
  }

  /** rlp256: the root node of the one and only canonical trie with the listed contents. */
  method Rlp256<H>(sha: Sha<H>, s: seq<Entry>) returns (n: Node<H>)
    requires Sorted(s)
    ensures exists t :: Canonical(t) && Lists(s, t) && n == Seal(sha, t)
    ensures forall t :: Canonical(t) && Lists(s, t) ==> n == Seal(sha, t)
  {
    ghost var max := LongestKey(s);
    ghost var built;
    assert forall i :: 0 <= i < |s| ==> s[i].0[..0] == [];
    n, built := Hash256Rlp(sha, s, 0, |s|, 0, max);
    forall t | Canonical(t) && Lists(s, t) ensures n == Seal(sha, t) {
      SameListing(s, t, built);
      CanonicalUnique(t, built);
    }
  }

  /** hash256: the root hash of that trie. */
  method Hash256<H>(sha: Sha<H>, s: seq<Entry>) returns (h: H)
    requires Sorted(s)
    ensures exists t :: Canonical(t) && Lists(s, t) && h == Hash(sha, t)
    ensures forall t :: Canonical(t) && Lists(s, t) ==> h == Hash(sha, t)
  {
    var n := Rlp256(sha, s);
    h := sha(n);
  }

  ghost function LongestKey(s: seq<Entry>): (r: nat)
    ensures forall i :: 0 <= i < |s| ==> |s[i].0| <= r
  {
    if s == [] then 0
    else
      var r := LongestKey(s[1..]);
      assert forall i :: 1 <= i < |s| ==> s[i] == s[1..][i - 1];
      if r < |s[0].0| then |s[0].0| else r
  }
}
