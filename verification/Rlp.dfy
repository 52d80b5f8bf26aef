/**
 * Recursive Length Prefix encoding (Appendix B of the Ethereum Yellow Paper) and the strict reader
 * of class RLP, as functions on byte strings, with the proof that they are inverse to each other.
 */
module Rlp {
  import opened Nibbles

  /** What RLP encodes: byte strings, nested in lists. */
  datatype Item = Data(b: Bytes) | List(items: seq<Item>)

  const MAX_SIZE := 0xFFFF_FFFF_FFFF_FFFF            // std::numeric_limits<size_t>::max()
  const LENGTH_LIMIT := MAX_SIZE - 0x100             // longer payloads are refused by RLP::length
  const IMM_LEN_COUNT := 56                          // c_rlpDataImmLenCount, c_rlpListImmLenCount
  const DATA_START := 0x80                           // c_rlpDataImmLenStart
  const DATA_IND_ZERO := 0xb7                        // c_rlpDataIndLenZero
  const LIST_START := 0xc0                           // c_rlpListStart
  const LIST_IND_ZERO := 0xf7                        // c_rlpListIndLenZero

  // ----- big-endian numbers

  /** The shortest big-endian form of n. */
  function BigEndian(n: nat): (r: Bytes)
    ensures n > 0 ==> r != [] && r[0] != 0
  {
    if n == 0 then [] else BigEndian(n / 256) + [n % 256]
  }

  /** Number of bytes of that form (dev::bytesRequired). */
  function BytesRequired(n: nat): nat {
    |BigEndian(n)|
  }

  function FromBigEndian(b: Bytes): nat {
    if b == [] then 0 else 256 * FromBigEndian(b[..|b| - 1]) + b[|b| - 1]
  }

  lemma {:induction false} FromBigEndianOf(n: nat)
    ensures FromBigEndian(BigEndian(n)) == n
  {
    if n > 0 {
      FromBigEndianOf(n / 256);
      assert BigEndian(n)[..|BigEndian(n)| - 1] == BigEndian(n / 256);
    }
  }

  lemma {:induction false} BigEndianOf(b: Bytes, n: nat)
    requires b != [] ==> b[0] != 0
    requires n == FromBigEndian(b)
    ensures BigEndian(n) == b
  {
    if b != [] {
      var init, last := b[..|b| - 1], b[|b| - 1];
      var x := FromBigEndian(init);
      if init != [] { assert init[0] == b[0]; Positive(init); }
      BigEndianOf(init, x);
      BigEndianStep(x, last, n);
      assert b == init + [last];
    }
  }

  lemma DivMod256(x: nat, y: Byte)
    ensures (256 * x + y) / 256 == x && (256 * x + y) % 256 == y
  {
  }

  lemma BigEndianStep(x: nat, y: Byte, n: nat)
    requires n == 256 * x + y && n > 0
    ensures BigEndian(n) == BigEndian(x) + [y]
  {
    DivMod256(x, y);
  }

  lemma {:induction false} Positive(b: Bytes)
    requires b != [] && b[0] != 0
    ensures FromBigEndian(b) > 0
  {
    if |b| > 1 { assert b[..|b| - 1][0] == b[0]; Positive(b[..|b| - 1]); }
  }

  /** Eight bytes hold every size_t. */
  lemma EightBytes(n: nat)
    requires n <= MAX_SIZE
    ensures BytesRequired(n) <= 8
  {
    var a := n / 256; var b := a / 256; var c := b / 256; var d := c / 256;
    var e := d / 256; var f := e / 256; var g := f / 256; var h := g / 256;
    assert h == 0;
    assert BytesRequired(h) == 0;
    assert BytesRequired(g) <= 1;
    assert BytesRequired(f) <= 2;
    assert BytesRequired(e) <= 3;
    assert BytesRequired(d) <= 4;
    assert BytesRequired(c) <= 5;
    assert BytesRequired(b) <= 6;
    assert BytesRequired(a) <= 7;
  }

  // ----- encoding

  /** The bytes before a payload of n bytes; base is DATA_START or LIST_START. */
  function Header(base: int, n: nat): Bytes
    requires base == DATA_START || base == LIST_START
  {
    if n < IMM_LEN_COUNT then [base + n]
    else if BytesRequired(n) <= 8 then [base + IMM_LEN_COUNT - 1 + BytesRequired(n)] + BigEndian(n)
    else []  // no such byte string exists in a 64-bit address space
  }

  function Encode(i: Item): Bytes {
    match i
    case Data(b) => if |b| == 1 && b[0] < DATA_START then b else Header(DATA_START, |b|) + b
    case List(items) => Header(LIST_START, |EncodeAll(items)|) + EncodeAll(items)
  }

  function EncodeAll(items: seq<Item>): Bytes {
    if items == [] then [] else Encode(items[0]) + EncodeAll(items[1..])
  }

  /** Every payload is within what a reader accepts. */
  predicate Fits(i: Item) {
    match i
    case Data(b) => |b| < LENGTH_LIMIT
    case List(items) => |EncodeAll(items)| < LENGTH_LIMIT && forall k :: 0 <= k < |items| ==> Fits(items[k])
  }

  // ----- the reader; None stands for a thrown exception

  /** The length field of a long form, lengthSize bytes after the first. */
  function LongLength(d: Bytes, lengthSize: nat): Option<nat>
    requires lengthSize > 0
  {
    if |d| <= lengthSize || d[1] == 0 || lengthSize > 8 then None
    else
      var n := FromBigEndian(d[1..1 + lengthSize]);
      if n < IMM_LEN_COUNT || n >= LENGTH_LIMIT then None else Some(n)
  }

  /** RLP::length, with requireGood. */
  function Length(d: Bytes): Option<nat> {
    if d == [] then Some(0)
    else if d[0] == DATA_START + 1 && (|d| < 2 || d[1] < DATA_START) then None
    else if d[0] < DATA_START then Some(1)
    else if d[0] <= DATA_IND_ZERO then Some(d[0] - DATA_START)
    else if d[0] < LIST_START then LongLength(d, d[0] - DATA_IND_ZERO)
    else if d[0] <= LIST_IND_ZERO then Some(d[0] - LIST_START)
    else LongLength(d, d[0] - LIST_IND_ZERO)
  }

  /** RLP::payloadOffset. */
  function PayloadOffset(d: Bytes): nat {
    if d == [] then 1
    else if d[0] < DATA_START then 0
    else if d[0] <= DATA_IND_ZERO then 1
    else if d[0] < LIST_START then 1 + d[0] - DATA_IND_ZERO
    else if d[0] <= LIST_IND_ZERO then 1
    else 1 + d[0] - LIST_IND_ZERO
  }

  /** RLP::actualSize: the size of the item at the front of d. */
  function ActualSize(d: Bytes): (r: Option<nat>)
    ensures r.Some? && d != [] ==> r.value > 0
  {
    if d == [] then Some(0)
    else match Length(d)
      case None => None
      case Some(n) => Some(PayloadOffset(d) + n)
  }

  /** RLP::sizeAsEncoded: throws when d is too short for its first item. */
  function SizeAsEncoded(d: Bytes): (r: Option<nat>)
    ensures r.Some? ==> r.value <= |d| && (d != [] ==> r.value > 0)
  {
    match ActualSize(d)
    case None => None
    case Some(n) => if n > |d| then None else Some(n)
  }

  /** RLP(d, VeryStrict) read all the way down. */
  function Decode(d: Bytes): Option<Item>
    decreases |d|, 0
  {
    if d == [] || ActualSize(d) != Some(|d|) then None
    else
      var payload := d[PayloadOffset(d)..];
      if d[0] < LIST_START then Some(Data(payload))
      else match DecodeAll(payload)
        case None => None
        case Some(items) => Some(List(items))
  }

  /** Iteration over the items of a payload, each read strictly. */
  function DecodeAll(d: Bytes): Option<seq<Item>>
    decreases |d|, 1
  {
    if d == [] then Some([])
    else match SizeAsEncoded(d)
      case None => None
      case Some(n) =>
        match Decode(d[..n])
        case None => None
        case Some(first) =>
          match DecodeAll(d[n..])
          case None => None
          case Some(rest) => Some([first] + rest)
  }

  // ----- reading back what was written

  lemma HeaderRead(base: int, n: nat, tail: Bytes)
    requires base == DATA_START || base == LIST_START
    requires n < LENGTH_LIMIT
    requires base == DATA_START && n == 1 ==> tail != [] && tail[0] >= DATA_START
    ensures var d := Header(base, n) + tail;
            && d != [] && Length(d) == Some(n) && PayloadOffset(d) == |Header(base, n)|
            && (d[0] < LIST_START <==> base == DATA_START)
  {
    if n >= IMM_LEN_COUNT {
      EightBytes(n);
      var d := Header(base, n) + tail;
      assert d[1..1 + BytesRequired(n)] == BigEndian(n);
      FromBigEndianOf(n);
      assert BytesRequired(n) > 0;
    }
  }

  /** The size of an encoded item can be read off its front, whatever follows. */
  lemma SizeRead(i: Item, tail: Bytes)
    requires Fits(i)
    ensures Encode(i) != [] && SizeAsEncoded(Encode(i) + tail) == Some(|Encode(i)|)
  {
    match i
    case Data(b) =>
      if |b| == 1 && b[0] < DATA_START {
        assert (b + tail)[0] == b[0];
      } else {
        LongSizeRead(DATA_START, b, tail);
      }
    case List(items) => LongSizeRead(LIST_START, EncodeAll(items), tail);
  }

  lemma LongSizeRead(base: int, p: Bytes, tail: Bytes)
    requires base == DATA_START || base == LIST_START
    requires |p| < LENGTH_LIMIT
    requires base == DATA_START && |p| == 1 ==> p[0] >= DATA_START
    ensures Header(base, |p|) != []
    ensures SizeAsEncoded((Header(base, |p|) + p) + tail) == Some(|Header(base, |p|) + p|)
  {
    HeaderRead(base, |p|, p + tail);
    assert (Header(base, |p|) + p) + tail == Header(base, |p|) + (p + tail);
    if |p| >= IMM_LEN_COUNT { EightBytes(|p|); }
  }

  lemma {:induction false} DecodeEncode(i: Item)
    requires Fits(i)
    ensures Decode(Encode(i)) == Some(i)
    decreases i, 0
  {
    SizeRead(i, []);
    assert Encode(i) + [] == Encode(i);
    match i
    case Data(b) =>
      if !(|b| == 1 && b[0] < DATA_START) { HeaderRead(DATA_START, |b|, b); }
    case List(items) =>
      HeaderRead(LIST_START, |EncodeAll(items)|, EncodeAll(items));
      DecodeEncodeAll(items);
  }

  lemma {:induction false} DecodeEncodeAll(items: seq<Item>)
    requires forall k :: 0 <= k < |items| ==> Fits(items[k])
    ensures DecodeAll(EncodeAll(items)) == Some(items)
    decreases items, 1
  {
    if items != [] {
      var e, rest := Encode(items[0]), EncodeAll(items[1..]);
      SizeRead(items[0], rest);
      DecodeEncode(items[0]);
      DecodeEncodeAll(items[1..]);
      assert (e + rest)[..|e|] == e && (e + rest)[|e|..] == rest;
      assert [items[0]] + items[1..] == items;
    }
  }

  // ----- only encodings are accepted

  lemma LongLengthCanonical(d: Bytes, lengthSize: nat)
    requires lengthSize > 0 && LongLength(d, lengthSize).Some?
    ensures BytesRequired(LongLength(d, lengthSize).value) == lengthSize
    ensures d[1..1 + lengthSize] == BigEndian(LongLength(d, lengthSize).value)
  {
    var f := d[1..1 + lengthSize];
    assert f[0] == d[1];
    BigEndianOf(f, FromBigEndian(f));
  }

  /** The front of an accepted byte string is the one header for its payload. */
  lemma HeaderCanonical(d: Bytes)
    requires d != [] && SizeAsEncoded(d).Some? && d[0] >= DATA_START
    ensures var n := Length(d).value;
            var base := if d[0] < LIST_START then DATA_START else LIST_START;
            n < LENGTH_LIMIT && PayloadOffset(d) == |Header(base, n)| && d[..PayloadOffset(d)] == Header(base, n)
  {
    if d[0] < LIST_START {
      DataHeaderCanonical(d);
    } else {
      ListHeaderCanonical(d);
    }
  }

  lemma DataHeaderCanonical(d: Bytes)
    requires d != [] && SizeAsEncoded(d).Some? && DATA_START <= d[0] < LIST_START
    ensures var n := Length(d).value;
            n < LENGTH_LIMIT && PayloadOffset(d) == |Header(DATA_START, n)|
              && d[..PayloadOffset(d)] == Header(DATA_START, n)
  {
    if DATA_IND_ZERO < d[0] {
      LongLengthCanonical(d, d[0] - DATA_IND_ZERO);
    }
  }

  lemma ListHeaderCanonical(d: Bytes)
    requires d != [] && SizeAsEncoded(d).Some? && LIST_START <= d[0]
    ensures var n := Length(d).value;
            n < LENGTH_LIMIT && PayloadOffset(d) == |Header(LIST_START, n)|
              && d[..PayloadOffset(d)] == Header(LIST_START, n)
  {
    if d[0] > LIST_IND_ZERO {
      LongLengthCanonical(d, d[0] - LIST_IND_ZERO);
    }
  }

  lemma {:induction false} EncodeDecode(d: Bytes)
    requires Decode(d).Some?
    ensures Encode(Decode(d).value) == d && Fits(Decode(d).value)
    decreases |d|, 0
  {
    if d[0] < DATA_START {
      assert d[0..] == d;
    } else if d[0] < LIST_START {
      HeaderCanonical(d);
      HeaderThenPayload(d);
    } else {
      HeaderCanonical(d);
      HeaderThenPayload(d);
      EncodeDecodeAll(d[PayloadOffset(d)..]);
    }
  }

  lemma HeaderThenPayload(d: Bytes)
    requires d != [] && ActualSize(d) == Some(|d|) && d[0] >= DATA_START
    ensures d == d[..PayloadOffset(d)] + d[PayloadOffset(d)..]
    ensures |d[PayloadOffset(d)..]| == Length(d).value
    ensures d[0] < LIST_START && Length(d).value == 1 ==> d[PayloadOffset(d)] >= DATA_START
  {
  }

  lemma {:induction false} EncodeDecodeAll(d: Bytes)
    requires DecodeAll(d).Some?
    ensures EncodeAll(DecodeAll(d).value) == d
    ensures forall k :: 0 <= k < |DecodeAll(d).value| ==> Fits(DecodeAll(d).value[k])
    decreases |d|, 1
  {
    if d != [] {
      var n := SizeAsEncoded(d).value;
      EncodeDecode(d[..n]);
      EncodeDecodeAll(d[n..]);
      assert d == d[..n] + d[n..];
      var items := DecodeAll(d).value;
      assert items[1..] == DecodeAll(d[n..]).value;
    }
  }

  /** A byte string has at most one reading and an item exactly one accepted byte string. */
  lemma RlpBijection(d: Bytes, i: Item)
    requires Fits(i)
    ensures Decode(d) == Some(i) <==> d == Encode(i)
  {
    DecodeEncode(i);
    if Decode(d) == Some(i) { EncodeDecode(d); }
  }

  /** Different items have different encodings. */
  lemma EncodeInjective(i: Item, j: Item)
    requires Fits(i) && Fits(j) && Encode(i) == Encode(j)
    ensures i == j
  {
    DecodeEncode(i);
    DecodeEncode(j);
  }
}
