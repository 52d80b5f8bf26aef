/** Bytes, nibbles and keys: the vocabulary shared by the trie, RLP and hashing modules. */
module Nibbles {
  datatype Option<+T> = None | Some(value: T)

  type Byte = b: int | 0 <= b < 256
  type Bytes = seq<Byte>
  type Nibble = n: int | 0 <= n < 16
  type Key = seq<Nibble>

  /** Length of the longest common prefix of two keys (what NibbleSlice::shared returns). */
  function Shared(a: Key, b: Key): (r: nat)
    ensures r <= |a| && r <= |b|
    ensures a[..r] == b[..r]
    ensures r < |a| && r < |b| ==> a[r] != b[r]
  {
    if a == [] || b == [] || a[0] != b[0] then 0
    else
      var r := Shared(a[1..], b[1..]);
      assert a[..1 + r] == [a[0]] + a[1..][..r];
      assert b[..1 + r] == [b[0]] + b[1..][..r];
      1 + r
  }

  /** Shared is the only length with its defining properties. */
  lemma SharedUnique(a: Key, b: Key, r: nat)
    requires r <= |a| && r <= |b| && a[..r] == b[..r]
    requires r < |a| && r < |b| ==> a[r] != b[r]
    ensures Shared(a, b) == r
  {
    PrefixAgrees(a, b, r);
    PrefixAgrees(a, b, Shared(a, b));
  }

  lemma PrefixAgrees(a: Key, b: Key, r: nat)
    requires r <= |a| && r <= |b| && a[..r] == b[..r]
    ensures forall i :: 0 <= i < r ==> a[i] == b[i]
  {
    forall i | 0 <= i < r ensures a[i] == b[i] {
      assert a[i] == a[..r][i] == b[..r][i];
    }
  }

  /** Lexicographic order on keys, a proper prefix coming first: the order of std::map<bytes, ...>. */
  predicate Less(a: Key, b: Key) {
    b != [] && (a == [] || a[0] < b[0] || (a[0] == b[0] && Less(a[1..], b[1..])))
  }
}
