/**
 * Reading the items of an RLP list by position: the loop of RLP::items, the iterator, and
 * operator[] with its cache of the last item accessed.
 */
module RlpReader {
  import opened Nibbles
  import opened Rlp

  /**
   * A payload is well formed when reading item sizes one after the other cuts it up without
   * exception and without remainder; cuts are the places where items begin, and its end.
   */
  ghost predicate WellFormed(d: Bytes, cuts: seq<nat>) {
    && |cuts| > 0 && cuts[0] == 0 && cuts[|cuts| - 1] == |d|
    && (forall i :: 0 <= i < |cuts| - 1 ==> CutAt(d, cuts, i))
  }

  /** The item that begins at a ends at b. */
  ghost predicate ItemAt(d: Bytes, a: nat, b: nat) {
    a < b <= |d| && SizeAsEncoded(d[a..]) == Some(b - a)
  }

  /** Item i lies between two neighbouring cuts. */
  ghost predicate CutAt(d: Bytes, cuts: seq<nat>, i: nat) {
    i + 1 < |cuts| && ItemAt(d, cuts[i], cuts[i + 1])
  }

  /** Positional access: item i, or nothing when the list has no item i. */
  ghost function Nth(d: Bytes, cuts: seq<nat>, i: nat): Bytes
    requires WellFormed(d, cuts)
  {
    if i + 1 < |cuts| then (assert CutAt(d, cuts, i); d[cuts[i]..cuts[i + 1]]) else []
  }

  lemma {:induction false} CutsBound(d: Bytes, cuts: seq<nat>, i: nat)
    requires WellFormed(d, cuts) && i < |cuts|
    ensures i <= cuts[i] <= |d| && (i + 1 < |cuts| ==> cuts[i] < cuts[i + 1] <= |d|)
  {
    if i + 1 < |cuts| { assert CutAt(d, cuts, i); }
    if i > 0 {
      CutsBound(d, cuts, i - 1);
      assert CutAt(d, cuts, i - 1);
    }
  }

  /** What the reader finds at a cut: the item there, or nothing at the end. */
  lemma ReadAtCut(d: Bytes, cuts: seq<nat>, i: nat)
    requires WellFormed(d, cuts) && i < |cuts|
    ensures cuts[i] <= |d| && SizeAsEncoded(d[cuts[i]..]) == Some(|Nth(d, cuts, i)|)
    ensures d[cuts[i]..][..|Nth(d, cuts, i)|] == Nth(d, cuts, i)
    ensures i + 1 < |cuts| ==> Nth(d, cuts, i) != [] && cuts[i] + |Nth(d, cuts, i)| == cuts[i + 1]
  {
    CutsBound(d, cuts, i);
    if i + 1 < |cuts| {
      assert CutAt(d, cuts, i);
    } else {
      assert d[cuts[i]..] == [];
    }
  }

  /** There is an item at every cut but the last, and it ends at the next cut. */
  lemma AfterItem(d: Bytes, cuts: seq<nat>, i: nat)
    requires WellFormed(d, cuts) && i < |cuts|
    ensures Nth(d, cuts, i) != [] <==> i + 1 < |cuts|
    ensures i + 1 < |cuts| ==> cuts[i] + |Nth(d, cuts, i)| == cuts[i + 1]
  {
    if i + 1 < |cuts| { assert CutAt(d, cuts, i); }
  }

  /** Reads the item at a position: payload().cropped(pos), cut to its encoded size. */
  method ReadItem(d: Bytes, pos: nat, ghost cuts: seq<nat>, ghost i: nat) returns (item: Bytes)
    requires WellFormed(d, cuts) && i < |cuts| && pos == cuts[i]
    ensures item == Nth(d, cuts, i)
    ensures item != [] <==> i + 1 < |cuts|
    ensures item != [] ==> pos + |item| == cuts[i + 1]
  {
    ReadAtCut(d, cuts, i);
    var rest := d[pos..];
    item := rest[..SizeAsEncoded(rest).value];
  }

  /** What a set cache holds: an index, its item, and where that item ends. */
  ghost predicate Cached(d: Bytes, cuts: seq<nat>, index: nat, end: nat, item: Bytes) {
    WellFormed(d, cuts) && index < |cuts| && item == Nth(d, cuts, index) && end == cuts[index] + |item|
  }

  /** The loop of operator[]: on to item i, or to the first index past the end. */
  method WalkTo(d: Bytes, ghost cuts: seq<nat>, from: nat, fromEnd: nat, fromItem: Bytes, i: nat)
    returns (index: nat, end: nat, item: Bytes)
    requires Cached(d, cuts, from, fromEnd, fromItem) && from <= i
    ensures Cached(d, cuts, index, end, item) && index <= i
    ensures index == i || item == []
  {
    index, end, item := from, fromEnd, fromItem;
    while index < i && item != []
      invariant Cached(d, cuts, index, end, item) && index <= i
      decreases i - index
    {
      AfterItem(d, cuts, index);
      item := ReadItem(d, end, cuts, index + 1);
      end := end + |item|;
      index := index + 1;
    }
  }

  class RLP {
    const payload: Bytes
    ghost const cuts: seq<nat>
    var lastIndex: nat   // m_lastIndex, initially (size_t)-1
    var lastEnd: nat     // m_lastEnd
    var lastItem: Bytes  // m_lastItem

    /** The cache is unset or describes the item at lastIndex, which may be the first one past the end. */
    ghost predicate Valid()
      reads this
    {
      && WellFormed(payload, cuts) && |payload| < MAX_SIZE
      && if lastIndex == MAX_SIZE then lastItem == []
         else Cached(payload, cuts, lastIndex, lastEnd, lastItem)
    }

    constructor (payload: Bytes, ghost cuts: seq<nat>)
      requires WellFormed(payload, cuts) && |payload| < MAX_SIZE
      ensures Valid() && this.payload == payload && this.cuts == cuts
    {
      this.payload, this.cuts := payload, cuts;
      lastIndex, lastEnd, lastItem := MAX_SIZE, 0, [];
    }

    /** operator[]: the cached walk gives what positional access gives, in or out of range. */
    method At(i: nat) returns (item: Bytes)
      requires Valid() && i <= MAX_SIZE
      modifies this
      ensures Valid() && item == Nth(payload, cuts, i)
    {
      CutsBound(payload, cuts, |cuts| - 1);
      if i < lastIndex {
        var first := ReadItem(payload, 0, cuts, 0);
        lastEnd := |first|;
        lastItem := first;
        lastIndex := 0;
      }
      if lastIndex < i {
        var index, end, at := WalkTo(payload, cuts, lastIndex, lastEnd, lastItem, i);
        lastIndex, lastEnd, lastItem := index, end, at;
      }
      item := lastItem;
      if lastIndex < |cuts| { AfterItem(payload, cuts, lastIndex); }
    }

    /** items(): how many items the list has. */
    method ItemCount() returns (n: nat)
      requires WellFormed(payload, cuts)
      ensures n + 1 == |cuts|
    {
      var d := payload;
      n := 0;
      while d != []
        invariant n < |cuts| && cuts[n] <= |payload| && d == payload[cuts[n]..]
        decreases |d|
      {
        ReadAtCut(payload, cuts, n);
        d := d[SizeAsEncoded(d).value..];
        n := n + 1;
      }
      CutsBound(payload, cuts, n);
    }

    /** begin() to end() with iterator::operator++: a current item and the bytes remaining after it. */
    method Iterate() returns (s: seq<Bytes>)
      requires WellFormed(payload, cuts)
      ensures |s| + 1 == |cuts|
      ensures forall i :: 0 <= i < |s| ==> s[i] == Nth(payload, cuts, i)
    {
      ReadAtCut(payload, cuts, 0);
      assert payload[0..] == payload;
      var pos, current := 0, payload[..SizeAsEncoded(payload).value];
      var remaining := |payload| - |current|;
      s := [];
      while current != []
        invariant |s| < |cuts| && pos == cuts[|s|] && current == Nth(payload, cuts, |s|)
        invariant pos + |current| + remaining == |payload| && remaining >= 0
        invariant forall i :: 0 <= i < |s| ==> s[i] == Nth(payload, cuts, i)
        decreases |cuts| - |s|
      {
        ReadAtCut(payload, cuts, |s|);
        ReadAtCut(payload, cuts, |s| + 1);
        s := s + [current];
        pos := pos + |current|;
        if remaining > 0 {
          var rest := payload[pos..];
          current := rest[..SizeAsEncoded(rest).value];
          remaining := remaining - if remaining < |current| then remaining else |current|;
        } else {
          current := [];
        }
      }
      ReadAtCut(payload, cuts, |s|);
    }
  }

  /** Any sequence of accesses through one cache, each in or out of range. */
  method AccessAll(payload: Bytes, indices: seq<nat>, ghost cuts: seq<nat>) returns (items: seq<Bytes>)
    requires WellFormed(payload, cuts) && |payload| < MAX_SIZE
    requires forall k :: 0 <= k < |indices| ==> indices[k] <= MAX_SIZE
    ensures |items| == |indices|
    ensures forall k :: 0 <= k < |indices| ==> items[k] == Nth(payload, cuts, indices[k])
  {
    var r := new RLP(payload, cuts);
    items := [];
    for k := 0 to |indices|
      invariant fresh(r) && r.Valid() && r.cuts == cuts && r.payload == payload && |items| == k
      invariant forall j :: 0 <= j < k ==> items[j] == Nth(payload, cuts, indices[j])
    {
      var item := r.At(indices[k]);
      items := items + [item];
    }
  }

  /** Item k is this byte string. */
  ghost predicate CutHolds(d: Bytes, cuts: seq<nat>, k: nat, e: Bytes) {
    CutAt(d, cuts, k) && d[cuts[k]..cuts[k + 1]] == e
  }

  /** The payload of an encoded list is well formed, and its items are the encodings of the list's items. */
  lemma {:induction false} EncodedCuts(d: Bytes, at: nat, items: seq<Item>) returns (cuts: seq<nat>)
    requires at <= |d| && d[at..] == EncodeAll(items)
    requires forall k :: 0 <= k < |items| ==> Fits(items[k])
    ensures |cuts| == |items| + 1 && cuts[0] == at && cuts[|items|] == |d|
    ensures forall k :: 0 <= k < |items| ==> CutHolds(d, cuts, k, Encode(items[k]))
    decreases |items|
  {
    if items == [] {
      cuts := [at];
    } else {
      var next := FirstCut(d, at, items[0], EncodeAll(items[1..]));
      var tail := EncodedCuts(d, next, items[1..]);
      cuts := [at] + tail;
      forall k | 0 <= k < |items| ensures CutHolds(d, cuts, k, Encode(items[k])) {
        LaterCut(d, at, tail, items, k);
      }
    }
  }

  lemma LaterCut(d: Bytes, at: nat, tail: seq<nat>, items: seq<Item>, k: nat)
    requires k < |items| == |tail| && at < tail[0] <= |d| && ItemAt(d, at, tail[0])
             && d[at..tail[0]] == Encode(items[0])
    requires k > 0 ==> CutHolds(d, tail, k - 1, Encode(items[1..][k - 1]))
    ensures CutHolds(d, [at] + tail, k, Encode(items[k]))
  {
    var cuts := [at] + tail;
    assert cuts[k] == if k == 0 then at else tail[k - 1];
    assert cuts[k + 1] == tail[k];
  }

  lemma FirstCut(d: Bytes, at: nat, item: Item, rest: Bytes) returns (next: nat)
    requires Fits(item) && at <= |d| && d[at..] == Encode(item) + rest
    ensures at < next <= |d| && ItemAt(d, at, next) && d[at..next] == Encode(item) && d[next..] == rest
  {
    var e := Encode(item);
    SizeRead(item, rest);
    next := at + |e|;
    assert d[at..next] == d[at..][..|e|];
    assert d[next..] == d[at..][|e|..];
  }
}
