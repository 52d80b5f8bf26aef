/**
 * TrieCommon: views of byte strings as nibbles, and the hex-prefix notation that packs a node's
 * key and its leaf flag into bytes (Appendix C of the Ethereum Yellow Paper).
 */
module TrieCommon {
  import opened Nibbles

  /** Nibble i of a byte string, the high half of each byte first. */
  function Nib(data: Bytes, i: nat): Nibble
    requires i < 2 * |data|
  {
    if i % 2 == 1 then data[i / 2] % 16 else data[i / 2] / 16
  }

  function Nibs(data: Bytes): (k: Key)
    ensures |k| == 2 * |data|
  {
    seq(2 * |data|, i requires 0 <= i < 2 * |data| => Nib(data, i))
  }

  /** A byte string read as nibbles from an offset on. */
  datatype NibbleSlice = NibbleSlice(data: Bytes, offset: nat) {
    predicate Valid() {
      offset <= 2 * |data|
    }

    function View(): (k: Key)
      requires Valid()
      ensures |k| == 2 * |data| - offset
    {
      Nibs(data)[offset..]
    }
  }

  /** sharedNibbles: the length of the longest common prefix of two views. */
  method SharedNibbles(a: Key, b: Key) returns (r: nat)
    ensures r == Shared(a, b)
  {
    r := 0;
    while r < |a| && r < |b| && a[r] == b[r]
      invariant r <= |a| && r <= |b| && a[..r] == b[..r]
    {
      assert a[..r + 1] == a[..r] + [a[r]] && b[..r + 1] == b[..r] + [b[r]];
      r := r + 1;
    }
    SharedUnique(a, b, r);
  }

  /** NibbleSlice::contains: k is a prefix of s. */
  method Contains(s: Key, k: Key) returns (b: bool)
    ensures b <==> k <= s
  {
    var n := SharedNibbles(s, k);
    b := n == |k|;
    assert b ==> k[..n] == k;
    if k <= s { SharedUnique(s, k, |k|); }
  }

  /** NibbleSlice::isEarlierThan: s comes strictly before the prefix k and hence before all that k begins. */
  method IsEarlierThan(s: Key, k: Key) returns (b: bool)
    ensures b <==> Less(s, k)
  {
    var i := 0;
    assert s[0..] == s && k[0..] == k;
    while i < |k| && i < |s|
      invariant 0 <= i <= |k| && i <= |s|
      invariant Less(s, k) <==> Less(s[i..], k[i..])
    {
      assert s[i..][1..] == s[i + 1..] && k[i..][1..] == k[i + 1..];
      if s[i] < k[i] { return true; }
      if s[i] > k[i] { return false; }
      i := i + 1;
    }
    if i >= |k| { return false; }
    b := true;
  }

  // ----- hex-prefix notation

  /** The key has an odd number of nibbles. */
  predicate Odd(k: Key) {
    k != [] && !Odd(k[1..])
  }

  lemma {:induction false} OddIs(k: Key)
    ensures Odd(k) <==> |k| % 2 == 1
  {
    if k != [] { OddIs(k[1..]); }
  }

  lemma {:induction false} OddAppend(a: Key, b: Key)
    ensures Odd(a + b) == (Odd(a) != Odd(b))
  {
    if a == [] {
      assert a + b == b;
    } else {
      assert (a + b)[1..] == a[1..] + b;
      OddAppend(a[1..], b);
    }
  }

  function Pair(hi: Nibble, lo: Nibble): (b: Byte)
    ensures b / 16 == hi && b % 16 == lo
  {
    (hi as int) * 16 + lo as int
  }

  /** Pairs of nibbles as bytes; a last nibble without partner becomes the high half of a byte. */
  function Pack(k: Key): Bytes {
    if k == [] then []
    else if |k| == 1 then [Pair(k[0], 0)]
    else [Pair(k[0], k[1])] + Pack(k[2..])
  }

  /** The nibble with the flags: 2 for a leaf, 1 for an odd number of nibbles. */
  function Flags(odd: bool, leaf: bool): Nibble {
    (if leaf then 2 else 0) + if odd then 1 else 0
  }

  /** The hex-prefix form of a key. */
  function HexPrefix(k: Key, leaf: bool): Bytes {
    if Odd(k) then [Pair(Flags(true, leaf), k[0])] + Pack(k[1..]) else [Pair(Flags(false, leaf), 0)] + Pack(k)
  }

  /** keyOf: the nibbles after the flags. */
  function KeyOf(hpe: Bytes): Key {
    if hpe == [] then [] else if hpe[0] / 16 % 2 == 1 then Nibs(hpe)[1..] else Nibs(hpe)[2..]
  }

  /** isLeaf. */
  predicate IsLeaf(hpe: Bytes)
    requires hpe != []
  {
    hpe[0] / 32 % 2 == 1
  }

  lemma {:induction false} NibsPack(k: Key)
    requires !Odd(k)
    ensures Nibs(Pack(k)) == k
  {
    if k != [] {
      assert k[1..] != [] && k[1..][1..] == k[2..];
      var rest := Pack(k[2..]);
      NibsPack(k[2..]);
      NibsCons(Pair(k[0], k[1]), rest);
      assert k == [k[0], k[1]] + k[2..];
    } else {
      assert Nibs([]) == [];
    }
  }

  lemma NibsCons(b: Byte, rest: Bytes)
    ensures Nibs([b] + rest) == [b / 16, b % 16] + Nibs(rest)
  {
    var all := [b] + rest;
    forall i | 0 <= i < 2 * |all| ensures Nibs(all)[i] == ([b / 16, b % 16] + Nibs(rest))[i] {
      if i >= 2 { assert all[i / 2] == rest[(i - 2) / 2]; }
    }
  }

  lemma {:induction false} PackNibs(b: Bytes)
    ensures Pack(Nibs(b)) == b
  {
    if b != [] {
      assert b == [b[0]] + b[1..];
      NibsCons(b[0], b[1..]);
      PackNibs(b[1..]);
      assert Nibs(b)[2..] == Nibs(b[1..]);
    }
  }

  /** Key and leaf flag can be read back. */
  lemma HexPrefixRoundTrip(k: Key, leaf: bool)
    ensures KeyOf(HexPrefix(k, leaf)) == k && IsLeaf(HexPrefix(k, leaf)) == leaf
  {
    var h := HexPrefix(k, leaf);
    if Odd(k) {
      NibsPack(k[1..]);
      NibsCons(h[0], Pack(k[1..]));
      assert Nibs(h)[1..] == [k[0]] + k[1..];
    } else {
      NibsPack(k);
      NibsCons(h[0], Pack(k));
      assert Nibs(h)[2..] == k;
    }
  }

  /** What KeyOf sees behind the flags byte. */
  lemma KeyBehindFlags(f: Byte, rest: Bytes)
    ensures KeyOf([f] + rest) == (if f / 16 % 2 == 1 then [f % 16] else []) + Nibs(rest)
    ensures Odd(KeyOf([f] + rest)) <==> f / 16 % 2 == 1
  {
    NibsCons(f, rest);
    OddIs(Nibs(rest));
    if f / 16 % 2 == 1 {
      assert Nibs([f] + rest)[1..] == [f % 16] + Nibs(rest);
      OddAppend([f % 16], Nibs(rest));
      assert [f % 16][1..] == [];
    } else {
      assert Nibs([f] + rest)[2..] == Nibs(rest);
      assert [] + Nibs(rest) == Nibs(rest);
    }
  }

  /** Exactly which byte strings are hex-prefix forms: no other flag is set, and padding is zero. */
  lemma HexPrefixForms(b: Bytes)
    requires b != []
    ensures HexPrefix(KeyOf(b), IsLeaf(b)) == b <==> b[0] < 0x40 && (b[0] / 16 % 2 == 0 ==> b[0] % 16 == 0)
  {
    var f, rest := b[0], b[1..];
    assert b == [f] + rest;
    KeyBehindFlags(f, rest);
    PackNibs(rest);
    var odd := f / 16 % 2 == 1;
    if odd { assert KeyOf(b)[1..] == Nibs(rest); } else { assert KeyOf(b) == Nibs(rest); }
    assert HexPrefix(KeyOf(b), IsLeaf(b)) == [Pair(Flags(odd, IsLeaf(b)), if odd then f % 16 else 0)] + rest;
    FlagsByte(f);
  }

  lemma FlagsByte(f: Byte)
    ensures var odd, leaf := f / 16 % 2 == 1, f / 32 % 2 == 1;
            Pair(Flags(odd, leaf), if odd then f % 16 else 0) == f <==> f < 0x40 && (!odd ==> f % 16 == 0)
  {
  }

  // ----- the encoders

  /** What the encoder has written after the nibbles k of a key with an odd or even number of them. */
  ghost function Written(k: Key, odd: bool, leaf: bool): Bytes {
    if odd && k != [] then [Pair(Flags(odd, leaf), k[0])] + Pack(k[1..]) else [Pair(Flags(odd, leaf), 0)] + Pack(k)
  }

  lemma WrittenAll(k: Key, leaf: bool)
    ensures Written(k, Odd(k), leaf) == HexPrefix(k, leaf)
  {
  }

  lemma {:induction false} PackSnoc(k: Key, x: Nibble)
    ensures Odd(k) ==> CanPut(Pack(k))
    ensures Pack(k + [x]) == Put(Pack(k), Odd(k), x)
  {
    if |k| >= 2 {
      assert k[1..][1..] == k[2..];
      PackSnoc(k[2..], x);
      assert (k + [x])[2..] == k[2..] + [x];
      if Pack(k[2..]) != [] { PutAfter(Pair(k[0], k[1]), Pack(k[2..]), Odd(k), x); }
    } else if |k| == 1 {
      assert (k + [x])[2..] == [];
    }
  }

  /** The low half of the last byte is still free. */
  predicate CanPut(ret: Bytes) {
    ret != [] && ret[|ret| - 1] % 16 == 0
  }

  /** One nibble more: or-ed onto the low half of the last byte, or pushed as the high half of a new one. */
  function Put(ret: Bytes, onto: bool, x: Nibble): Bytes
    requires onto ==> CanPut(ret)
  {
    if onto then ret[..|ret| - 1] + [Pair(ret[|ret| - 1] / 16, x)] else ret + [Pair(x, 0)]
  }

  lemma PutAfter(b: Byte, p: Bytes, onto: bool, x: Nibble)
    requires p != [] && (onto ==> CanPut(p))
    ensures (onto ==> CanPut([b] + p)) && Put([b] + p, onto, x) == [b] + Put(p, onto, x)
  {
  }

  lemma PutWritten(k: Key, odd: bool, leaf: bool, x: Nibble)
    ensures var onto := Onto(k, odd);
            && (onto ==> CanPut(Written(k, odd, leaf)))
            && Written(k + [x], odd, leaf) == Put(Written(k, odd, leaf), onto, x)
  {
    var f := Flags(odd, leaf);
    var onto := Onto(k, odd);
    if k == [] {
      assert odd ==> ([x])[1..] == [];
    } else if odd {
      PackSnoc(k[1..], x);
      assert (k + [x])[1..] == k[1..] + [x];
      if |k| > 1 { PutAfter(Pair(f, k[0]), Pack(k[1..]), onto, x); }
    } else {
      PackSnoc(k, x);
      PutAfter(Pair(f, 0), Pack(k), onto, x);
    }
  }

  /** The next nibble goes onto the last byte. */
  ghost predicate Onto(k: Key, odd: bool) {
    odd != Odd(k)
  }

  lemma OntoSnoc(k: Key, x: Nibble, odd: bool)
    ensures Onto(k + [x], odd) == !Onto(k, odd)
  {
    OddAppend(k, [x]);
  }

  /** Every nibble of k that is due on the low half of a byte finds it free. */
  ghost predicate CanPutAll(ret: Bytes, onto: bool, k: Key)
    decreases |k|
  {
    k == [] || ((onto ==> CanPut(ret)) && CanPutAll(Put(ret, onto, k[0]), !onto, k[1..]))
  }

  /** The output after the nibbles of k. */
  ghost function PutMany(ret: Bytes, onto: bool, k: Key): Bytes
    requires CanPutAll(ret, onto, k)
    decreases |k|
  {
    if k == [] then ret else PutMany(Put(ret, onto, k[0]), !onto, k[1..])
  }

  lemma {:induction false} PutManyWritten(done: Key, k: Key, odd: bool, leaf: bool, ret: Bytes)
    requires ret == Written(done, odd, leaf)
    ensures CanPutAll(ret, Onto(done, odd), k)
    ensures PutMany(ret, Onto(done, odd), k) == Written(done + k, odd, leaf)
    decreases |k|
  {
    if k == [] {
      assert done + k == done;
    } else {
      PutWritten(done, odd, leaf, k[0]);
      OntoSnoc(done, k[0], odd);
      PutManyWritten(done + [k[0]], k[1..], odd, leaf, Put(ret, Onto(done, odd), k[0]));
      assert (done + [k[0]]) + k[1..] == done + k;
    }
  }

  /** Appends the nibbles of data from begin to end; onto is the low bit of the encoder's counter d. */
  method PutAll(data: Bytes, begin: nat, end: nat, ret0: Bytes, onto0: bool) returns (ret: Bytes, onto: bool)
    requires begin <= end <= 2 * |data| && CanPutAll(ret0, onto0, Nibs(data)[begin..end])
    ensures ret == PutMany(ret0, onto0, Nibs(data)[begin..end])
    ensures onto == (onto0 != Odd(Nibs(data)[begin..end]))
  {
    ret, onto := ret0, onto0;
    for i := begin to end
      invariant CanPutAll(ret, onto, Nibs(data)[i..end])
      invariant PutMany(ret, onto, Nibs(data)[i..end]) == PutMany(ret0, onto0, Nibs(data)[begin..end])
      invariant (onto != Odd(Nibs(data)[i..end])) == (onto0 != Odd(Nibs(data)[begin..end]))
    {
      assert Nibs(data)[i..end][0] == Nib(data, i) && Nibs(data)[i..end][1..] == Nibs(data)[i + 1..end];
      ret := Put(ret, onto, Nib(data, i));
      onto := !onto;
    }
  }

  /** hexPrefixEncode of one slice of nibbles, from begin to end. */
  method HexPrefixEncode(data: Bytes, leaf: bool, begin: nat, end: nat) returns (ret: Bytes)
    requires begin <= end <= 2 * |data|
    ensures ret == HexPrefix(Nibs(data)[begin..end], leaf)
  {
    var odd := (end - begin) % 2 == 1;
    OddIs(Nibs(data)[begin..end]);
    var onto := odd;
    PutManyWritten([], Nibs(data)[begin..end], odd, leaf, [Pair(Flags(odd, leaf), 0)]);
    ret, onto := PutAll(data, begin, end, [Pair(Flags(odd, leaf), 0)], onto);
    assert [] + Nibs(data)[begin..end] == Nibs(data)[begin..end];
  }

  /** hexPrefixEncode of two slices, one after the other. */
  method HexPrefixEncode2(a: NibbleSlice, b: NibbleSlice, leaf: bool) returns (ret: Bytes)
    requires a.Valid() && b.Valid()
    ensures ret == HexPrefix(a.View() + b.View(), leaf)
  {
    var odd := ParityOf(a, b);
    var flags := [Pair(Flags(odd, leaf), 0)];
    ghost var x, y := a.View(), b.View();
    WrittenAll(x + y, leaf);
    PutManyWritten([], x, odd, leaf, flags);
    assert Nibs(a.data)[a.offset..2 * |a.data|] == x && [] + x == x;
    var onto;
    ret, onto := PutAll(a.data, a.offset, 2 * |a.data|, flags, odd);
    PutManyWritten(x, y, odd, leaf, ret);
    assert Nibs(b.data)[b.offset..2 * |b.data|] == y;
    ret, onto := PutAll(b.data, b.offset, 2 * |b.data|, ret, onto);
  }

  method ParityOf(a: NibbleSlice, b: NibbleSlice) returns (odd: bool)
    requires a.Valid() && b.Valid()
    ensures odd == Odd(a.View() + b.View())
  {
    OddIs(a.View() + b.View());
    odd := (2 * |a.data| - a.offset + 2 * |b.data| - b.offset) % 2 == 1;
  }

  /** hexPrefixEncode of a vector with one nibble per element, from begin to end, two at a time. */
  method HexPrefixEncodeVector(hex: Key, leaf: bool, begin: nat, end: nat) returns (ret: Bytes)
    requires begin <= end <= |hex|
    ensures ret == HexPrefix(hex[begin..end], leaf)
  {
    ghost var key := hex[begin..end];
    OddIs(key);
    var odd := (end - begin) % 2 == 1;
    ret := [Pair(Flags(odd, leaf), 0)];
    var i := begin;
    if odd {
      ret := [Pair(ret[0] / 16, hex[begin])];
      i := begin + 1;
    }
    ghost var first := ret;
    ghost var rest := hex[i..end];
    assert odd ==> key[1..] == rest;
    assert !odd ==> key == rest;
    while i < end
      invariant begin <= i <= end && !Odd(hex[i..end])
      invariant ret + Pack(hex[i..end]) == first + Pack(rest)
    {
      assert hex[i..end][1..] == hex[i + 1..end] && hex[i + 1..end][1..] == hex[i + 2..end];
      ret := ret + [Pair(hex[i], hex[i + 1])];
      i := i + 2;
    }
    assert hex[i..end] == [];
  }
}
