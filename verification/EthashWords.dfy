/**
 * The storage unit of libethash: 32-bit words, the FNV step on them, and the union of words and
 * bytes that a node is (libethash/internal.h:25-36, libethash/fnv.h:30-35) on a little-endian
 * machine, where fix_endian_arr32 does nothing.
 */
module EthashWords {
  import opened Nibbles
  import Rlp

  type Word = w: int | 0 <= w < 0x1_0000_0000

  /** Exclusive or, bit by bit from the lowest. */
  function Xor(a: nat, b: nat): nat {
    if a == 0 then b else 2 * Xor(a / 2, b / 2) + (a + b) % 2
  }

  function Pow2(k: nat): (r: nat)
    ensures r > 0
  {
    if k == 0 then 1 else 2 * Pow2(k - 1)
  }

  /** Exclusive or stays within the width of its operands. */
  lemma {:induction false} XorBound(a: nat, b: nat, k: nat)
    requires a < Pow2(k) && b < Pow2(k)
    ensures Xor(a, b) < Pow2(k)
  {
    if a != 0 && k > 0 {
      XorBound(a / 2, b / 2, k - 1);
    }
  }

  lemma {:induction false} Pow2Sum(k: nat, j: nat)
    ensures Pow2(k + j) == Pow2(k) * Pow2(j)
  {
    if k > 0 {
      Pow2Sum(k - 1, j);
    }
  }

  lemma WordPow()
    ensures Pow2(32) == 0x1_0000_0000
  {
    assert Pow2(2) == 4;
    Pow2Sum(2, 2);
    Pow2Sum(4, 4);
    Pow2Sum(8, 8);
    Pow2Sum(16, 16);
  }

  function XorWord(a: Word, b: Word): Word {
    WordPow();
    XorBound(a, b, 32);
    Xor(a, b)
  }

  const FNV_PRIME: int := 0x01000193

  /** fnv_hash: multiply modulo 2^32, then exclusive or. */
  function Fnv(x: Word, y: Word): Word {
    XorWord(x * FNV_PRIME % 0x1_0000_0000, y)
  }

  function WordBytes(w: Word): (r: Bytes)
    ensures |r| == 4
  {
    [w % 256, w / 256 % 256, w / 65536 % 256, w / 16777216]
  }

  function WordOf(b: Bytes): (r: Word)
    requires |b| >= 4
  {
    var b0: int, b1: int, b2: int, b3: int := b[0], b[1], b[2], b[3];
    b0 + 256 * b1 + 65536 * b2 + 16777216 * b3
  }

  /** The bytes of an array of words. */
  function ToBytes(ws: seq<Word>): (r: Bytes)
    ensures |r| == 4 * |ws|
  {
    if ws == [] then [] else WordBytes(ws[0]) + ToBytes(ws[1..])
  }

  /** The words over an array of bytes. */
  function ToWords(b: Bytes): (r: seq<Word>)
    ensures |r| == |b| / 4
  {
    if |b| < 4 then [] else [WordOf(b)] + ToWords(b[4..])
  }

  lemma WordBytesInverse(b: Bytes)
    requires |b| >= 4
    ensures WordBytes(WordOf(b)) == b[..4]
  {
    var b0: int, b1: int, b2: int, b3: int := b[0], b[1], b[2], b[3];
    var w: int := WordOf(b);
    var x: int := b2 + 256 * b3;
    var y: int := b1 + 256 * x;
    assert w == 256 * y + b0;
    Rlp.DivMod256(y, b0);
    Rlp.DivMod256(x, b1);
    Rlp.DivMod256(b3, b2);
    assert w / 65536 == w / 256 / 256 && w / 16777216 == w / 256 / 256 / 256;
  }

  /** Writing through the words of a node and reading its bytes sees the bytes first written. */
  lemma {:induction false} BytesOfWords(b: Bytes)
    requires |b| % 4 == 0
    ensures ToBytes(ToWords(b)) == b
  {
    if b != [] {
      WordBytesInverse(b);
      BytesOfWords(b[4..]);
      assert ToWords(b)[1..] == ToWords(b[4..]);
      assert b == b[..4] + b[4..];
    }
  }

  lemma {:induction false} ToBytesConcat(a: seq<Word>, b: seq<Word>)
    ensures ToBytes(a + b) == ToBytes(a) + ToBytes(b)
  {
    if a == [] {
      assert a + b == b;
    } else {
      ToBytesConcat(a[1..], b);
      assert (a + b)[1..] == a[1..] + b;
      assert WordBytes(a[0]) + (ToBytes(a[1..]) + ToBytes(b)) == (WordBytes(a[0]) + ToBytes(a[1..])) + ToBytes(b);
    }
  }
}
