/** The contents of a trie in key order, and the part of them that is not below a given key. */
module TrieOrder {
  import opened Nibbles
  import opened Trie
  import opened TrieHash

  /** The entries of t in the order of a depth-first walk, each key prefixed with pre. */
  function Entries(t: Tree, pre: Key): seq<Entry> {
    match t
    case Nil => []
    case Leaf(key, val) => [(pre + key, val)]
    case Ext(key, child) => Entries(child, pre + key)
    case Branch(kids, val) => Own(val, pre) + KidEntries(kids, pre, 0)
  }

  /** The entry of a branch's own value, if it has one. */
  function Own(val: Bytes, pre: Key): seq<Entry> {
    if val == [] then [] else [(pre, val)]
  }

  /** The entries of the children from slot i on. */
  function KidEntries(kids: seq<Tree>, pre: Key, i: nat): seq<Entry>
    decreases kids, 16 - i
  {
    if i < |kids| && i < 16 then Entries(kids[i], pre + [i]) + KidEntries(kids, pre, i + 1) else []
  }

  // ----- order on keys

  lemma {:induction false} LessPrefixed(pre: Key, a: Key, b: Key)
    ensures Less(pre + a, pre + b) <==> Less(a, b)
  {
    if pre == [] {
      assert pre + a == a && pre + b == b;
    } else {
      assert (pre + a)[1..] == pre[1..] + a && (pre + b)[1..] == pre[1..] + b;
      LessPrefixed(pre[1..], a, b);
    }
  }

  lemma {:induction false} LessTransitive(a: Key, b: Key, c: Key)
    requires Less(a, b) && Less(b, c)
    ensures Less(a, c)
  {
    if a != [] && a[0] == b[0] && b[0] == c[0] { LessTransitive(a[1..], b[1..], c[1..]); }
  }

  lemma {:induction false} LessTotal(a: Key, b: Key)
    ensures Less(a, b) || a == b || Less(b, a)
  {
    if a != [] && b != [] && a[0] == b[0] {
      LessTotal(a[1..], b[1..]);
      assert a == [a[0]] + a[1..] && b == [b[0]] + b[1..];
    }
  }

  /** Keys below different slots of a branch are ordered by slot. */
  lemma LessBySlot(pre: Key, i: Nibble, j: Nibble, x: Key, y: Key)
    requires i < j
    ensures Less((pre + [i]) + x, (pre + [j]) + y)
    ensures Less(pre, (pre + [i]) + x)
  {
    assert (pre + [i]) + x == pre + ([i] + x) && (pre + [j]) + y == pre + ([j] + y) && pre + [] == pre;
    LessPrefixed(pre, [i] + x, [j] + y);
    LessPrefixed(pre, [], [i] + x);
  }

  // ----- the entries of a tree are its contents

  /** The entry's key continues pre, and the tree holds its value there. */
  ghost predicate From(t: Tree, pre: Key, e: Entry) {
    pre <= e.0 && e.1 != [] && Get(t, e.0[|pre|..]) == e.1
  }

  lemma {:induction false} EntriesFrom(t: Tree, pre: Key)
    requires Canonical(t)
    ensures forall i :: 0 <= i < |Entries(t, pre)| ==> From(t, pre, Entries(t, pre)[i])
    decreases t, 0
  {
    match t
    case Nil =>
    case Leaf(key, _) => assert (pre + key)[|pre|..] == key;
    case Ext(key, child) =>
      EntriesFrom(child, pre + key);
      forall i | 0 <= i < |Entries(t, pre)| ensures From(t, pre, Entries(t, pre)[i]) {
        var e := Entries(child, pre + key)[i];
        assert From(child, pre + key, e);
        FromExt(key, child, pre, e);
      }
    case Branch(kids, val) =>
      KidEntriesFrom(kids, val, pre, 0);
      assert forall e :: e in Own(val, pre) ==> From(t, pre, e);
  }

  lemma FromExt(key: Key, child: Tree, pre: Key, e: Entry)
    requires From(child, pre + key, e)
    ensures From(Ext(key, child), pre, e)
  {
    var x := e.0[|pre + key|..];
    assert e.0 == (pre + key) + x == pre + (key + x);
    ExtHolds(key, child, x);
    assert e.0[|pre|..] == key + x;
  }

  lemma FromSlot(kids: seq<Tree>, val: Bytes, pre: Key, i: Nibble, e: Entry)
    requires |kids| == 16 && From(kids[i], pre + [i], e)
    ensures From(Branch(kids, val), pre, e)
  {
    var x := e.0[|pre + [i]|..];
    assert e.0 == (pre + [i]) + x == pre + ([i] + x);
    assert e.0[|pre|..] == [i] + x && ([i] + x)[1..] == x;
  }

  lemma {:induction false} KidEntriesFrom(kids: seq<Tree>, val: Bytes, pre: Key, i: nat)
    requires |kids| == 16 && forall j :: 0 <= j < 16 ==> Canonical(kids[j])
    ensures forall m :: 0 <= m < |KidEntries(kids, pre, i)| ==>
            From(Branch(kids, val), pre, KidEntries(kids, pre, i)[m])
    decreases kids, 16 - i
  {
    if i < 16 {
      EntriesFrom(kids[i], pre + [i]);
      KidEntriesFrom(kids, val, pre, i + 1);
      forall m | 0 <= m < |Entries(kids[i], pre + [i])|
        ensures From(Branch(kids, val), pre, Entries(kids[i], pre + [i])[m])
      {
        FromSlot(kids, val, pre, i, Entries(kids[i], pre + [i])[m]);
      }
    }
  }

  /** Every key the tree holds is among its entries. */
  lemma {:induction false} EntriesComplete(t: Tree, pre: Key, k: Key)
    requires Canonical(t) && Get(t, k) != []
    ensures (pre + k, Get(t, k)) in Entries(t, pre)
    decreases t, 0
  {
    match t
    case Leaf(_, _) =>
    case Ext(key, child) =>
      EntriesComplete(child, pre + key, k[|key|..]);
      assert (pre + key) + k[|key|..] == pre + k;
    case Branch(kids, val) =>
      if k == [] {
        assert pre + k == pre;
        assert (pre, val) in Own(val, pre);
      } else {
        EntriesComplete(kids[k[0]], pre + [k[0]], k[1..]);
        assert (pre + [k[0]]) + k[1..] == pre + k;
        KidEntriesInclude(kids, pre, 0, k[0], (pre + k, Get(t, k)));
      }
  }

  lemma {:induction false} KidEntriesInclude(kids: seq<Tree>, pre: Key, i: nat, j: nat, e: Entry)
    requires |kids| == 16 && i <= j < 16 && e in Entries(kids[j], pre + [j])
    ensures e in KidEntries(kids, pre, i)
    decreases 16 - i
  {
    if i < j { KidEntriesInclude(kids, pre, i + 1, j, e); }
  }

  // ----- the entries ascend

  ghost predicate Ascending(es: seq<Entry>) {
    forall i, j :: 0 <= i < j < |es| ==> Less(es[i].0, es[j].0)
  }

  ghost predicate AllLess(a: seq<Entry>, b: seq<Entry>) {
    forall x, y :: x in a && y in b ==> Less(x.0, y.0)
  }

  lemma AscendingAppend(a: seq<Entry>, b: seq<Entry>)
    requires Ascending(a) && Ascending(b) && AllLess(a, b)
    ensures Ascending(a + b)
  {
  }

  lemma {:induction false} EntriesAscend(t: Tree, pre: Key)
    requires Canonical(t)
    ensures Ascending(Entries(t, pre))
    decreases t, 0
  {
    match t
    case Nil =>
    case Leaf(_, _) =>
    case Ext(key, child) => EntriesAscend(child, pre + key);
    case Branch(kids, val) =>
      KidEntriesAscend(kids, pre, 0);
      forall y | y in KidEntries(kids, pre, 0) ensures Less(pre, y.0) { KidEntryBeyond(kids, pre, 0, y); }
      AscendingAppend(Own(val, pre), KidEntries(kids, pre, 0));
  }

  lemma {:induction false} KidEntriesAscend(kids: seq<Tree>, pre: Key, i: nat)
    requires |kids| == 16 && forall j :: 0 <= j < 16 ==> Canonical(kids[j])
    ensures Ascending(KidEntries(kids, pre, i))
    decreases kids, 16 - i
  {
    if i < 16 {
      EntriesAscend(kids[i], pre + [i]);
      KidEntriesAscend(kids, pre, i + 1);
      forall x, y | x in Entries(kids[i], pre + [i]) && y in KidEntries(kids, pre, i + 1) ensures Less(x.0, y.0) {
        EntriesFrom(kids[i], pre + [i]);
        var j := KidEntrySlot(kids, pre, i + 1, y);
        LessBySlot(pre, i, j, x.0[|pre| + 1..], y.0[|pre| + 1..]);
        assert x.0 == (pre + [i]) + x.0[|pre| + 1..];
      }
      AscendingAppend(Entries(kids[i], pre + [i]), KidEntries(kids, pre, i + 1));
    }
  }

  /** The slot a child's entry comes from. */
  lemma {:induction false} KidEntrySlot(kids: seq<Tree>, pre: Key, i: nat, e: Entry) returns (j: nat)
    requires |kids| == 16 && (forall j :: 0 <= j < 16 ==> Canonical(kids[j])) && e in KidEntries(kids, pre, i)
    ensures i <= j < 16 && pre + [j] <= e.0 && e.0 == (pre + [j]) + e.0[|pre| + 1..]
    decreases 16 - i
  {
    if e in Entries(kids[i], pre + [i]) {
      j := i;
      EntriesFrom(kids[i], pre + [i]);
      assert e.0 == (pre + [j]) + e.0[|pre| + 1..];
    } else {
      j := KidEntrySlot(kids, pre, i + 1, e);
    }
  }

  lemma KidEntryBeyond(kids: seq<Tree>, pre: Key, i: nat, e: Entry)
    requires |kids| == 16 && (forall j :: 0 <= j < 16 ==> Canonical(kids[j])) && e in KidEntries(kids, pre, i)
    ensures Less(pre, e.0)
  {
    var j := KidEntrySlot(kids, pre, i, e);
    assert e.0 == pre + ([j] + e.0[|pre| + 1..]) && pre + [] == pre;
    LessPrefixed(pre, [], [j] + e.0[|pre| + 1..]);
  }

  /** The entries of a trie list its contents, each key once, in ascending order. */
  lemma EntriesList(t: Tree)
    requires Canonical(t)
    ensures Lists(Entries(t, []), t)
  {
    var s := Entries(t, []);
    EntriesFrom(t, []);
    EntriesAscend(t, []);
    forall i | 0 <= i < |s|
      ensures s[i].0[..0] == [] && s[i].0[0..] == s[i].0 && s[i].1 != [] && Get(t, s[i].0) == s[i].1
    {
      assert From(t, [], s[i]);
    }
    forall k | Get(t, k) != [] ensures exists i :: 0 <= i < |s| && IsEntry(s, i, 0, k) {
      EntriesComplete(t, [], k);
      assert [] + k == k;
      var i :| 0 <= i < |s| && s[i] == (k, Get(t, k));
      assert IsEntry(s, i, 0, k);
    }
  }

  // ----- the entries not below a key

  /** es without its leading entries below lo. */
  function NotBelow(es: seq<Entry>, lo: Key): seq<Entry> {
    if es != [] && Less(es[0].0, lo) then NotBelow(es[1..], lo) else es
  }

  ghost predicate AllBelow(es: seq<Entry>, lo: Key) {
    forall e :: e in es ==> Less(e.0, lo)
  }

  ghost predicate NoneBelow(es: seq<Entry>, lo: Key) {
    forall e :: e in es ==> !Less(e.0, lo)
  }

  lemma {:induction false} NotBelowAppend(a: seq<Entry>, b: seq<Entry>, lo: Key)
    ensures AllBelow(a, lo) ==> NotBelow(a + b, lo) == NotBelow(b, lo)
    ensures NoneBelow(b, lo) ==> NotBelow(a + b, lo) == NotBelow(a, lo) + b
  {
    if a == [] {
      assert a + b == b;
    } else {
      assert (a + b)[1..] == a[1..] + b;
      NotBelowAppend(a[1..], b, lo);
    }
  }

  lemma {:induction false} NotBelowAll(es: seq<Entry>, lo: Key)
    ensures AllBelow(es, lo) ==> NotBelow(es, lo) == []
    ensures NoneBelow(es, lo) ==> NotBelow(es, lo) == es
  {
    if es != [] { NotBelowAll(es[1..], lo); }
  }

  /** In ascending entries, exactly the ones not below lo remain. */
  lemma {:induction false} NotBelowExact(es: seq<Entry>, lo: Key)
    requires Ascending(es)
    ensures forall e :: e in NotBelow(es, lo) <==> e in es && !Less(e.0, lo)
    ensures Ascending(NotBelow(es, lo))
  {
    if es != [] {
      if Less(es[0].0, lo) {
        NotBelowExact(es[1..], lo);
      } else {
        forall e | e in es ensures !Less(e.0, lo) {
          var j :| 0 <= j < |es| && es[j] == e;
          if j > 0 && Less(e.0, lo) { LessTransitive(es[0].0, e.0, lo); }
        }
      }
    }
  }
}
