/**
 * RLPStream: the writer that learns the size of a list only when its last item has been appended,
 * and then moves the list's bytes up to patch its header in.
 */
module RlpWriter {
  import opened Nibbles
  import opened Rlp

  /** The output so far, and for each open list the items still to come and where it starts. */
  datatype OpenList = OpenList(left: nat, start: nat)

  datatype Stream = Stream(out: Bytes, open: seq<OpenList>)

  predicate WellFormed(s: Stream) {
    && (forall i :: 0 <= i < |s.open| ==> s.open[i].left > 0 && s.open[i].start <= |s.out|)
    && (forall i, j :: 0 <= i < j < |s.open| ==> s.open[i].start <= s.open[j].start)
  }

  const EMPTY := Stream([], [])

  /** The header of a list whose payload starts at p, put in front of that payload. */
  function Patched(out: Bytes, p: nat): Bytes
    requires p <= |out|
  {
    out[..p] + Header(LIST_START, |out| - p) + out[p..]
  }

  /** RLPStream::noteAppended: count items were appended; None stands for a thrown RLPException. */
  function Note(s: Stream, count: nat): Option<Stream>
    requires WellFormed(s)
    decreases |s.open|
  {
    if count == 0 || s.open == [] then Some(s)
    else
      var top := |s.open| - 1;
      var OpenList(items, p) := s.open[top];
      if items < count then None
      else if items > count then Some(Stream(s.out, s.open[..top] + [OpenList(items - count, p)]))
      else if |s.out| - p > MAX_SIZE then None  // its length has no encoding
      else Note(Stream(Patched(s.out, p), s.open[..top]), 1)
  }

  lemma {:induction false} NoteWellFormed(s: Stream, count: nat)
    requires WellFormed(s)
    ensures Note(s, count).Some? ==> WellFormed(Note(s, count).value)
    decreases |s.open|
  {
    if count != 0 && s.open != [] {
      var top := |s.open| - 1;
      var OpenList(items, p) := s.open[top];
      if items == count && |s.out| - p <= MAX_SIZE {
        NoteWellFormed(Stream(Patched(s.out, p), s.open[..top]), 1);
      }
    }
  }

  /** What a caller of the stream does: open a list of n items, or append a string. */
  datatype Token = Open(n: nat) | Datum(b: Bytes)

  function Step(s: Stream, t: Token): Option<Stream>
    requires WellFormed(s)
  {
    match t
    case Datum(b) => Note(Stream(s.out + Encode(Data(b)), s.open), 1)
    case Open(n) =>
      if n > 0 then Some(Stream(s.out, s.open + [OpenList(n, |s.out|)]))
      else Note(Stream(s.out + Encode(List([])), s.open), 1)
  }

  lemma StepWellFormed(s: Stream, t: Token)
    requires WellFormed(s)
    ensures Step(s, t).Some? ==> WellFormed(Step(s, t).value)
  {
    match t
    case Datum(b) => NoteWellFormed(Stream(s.out + Encode(Data(b)), s.open), 1);
    case Open(n) => if n == 0 { NoteWellFormed(Stream(s.out + Encode(List([])), s.open), 1); }
  }

  /** The stream after a whole sequence of calls. */
  function Feed(s: Stream, ts: seq<Token>): Option<Stream>
    requires WellFormed(s)
    decreases |ts|
  {
    if ts == [] then Some(s)
    else
      var r := Step(s, ts[0]);
      if r.None? then None else (StepWellFormed(s, ts[0]); Feed(r.value, ts[1..]))
  }

  lemma {:induction false} FeedAppend(s: Stream, a: seq<Token>, b: seq<Token>)
    requires WellFormed(s) && Feed(s, a).Some? && WellFormed(Feed(s, a).value)
    ensures Feed(s, a + b) == Feed(Feed(s, a).value, b)
    decreases |a|
  {
    if a == [] {
      assert a + b == b;
    } else {
      assert (a + b)[1..] == a[1..] + b;
      StepWellFormed(s, a[0]);
      FeedAppend(Step(s, a[0]).value, a[1..], b);
    }
  }

  /** The calls that write an item: a list announces its item count, then come its items. */
  function Tokens(i: Item): seq<Token> {
    match i
    case Data(b) => [Datum(b)]
    case List(items) => [Open(|items|)] + TokensAll(items)
  }

  function TokensAll(items: seq<Item>): seq<Token> {
    if items == [] then [] else Tokens(items[0]) + TokensAll(items[1..])
  }

  // ----- writing an item appends its encoding

  /** Whatever lists are open, the calls for an item have the effect of appending its encoding as one item. */
  lemma {:induction false} FeedItem(s: Stream, i: Item)
    requires WellFormed(s) && Fits(i)
    ensures Feed(s, Tokens(i)) == Note(Stream(s.out + Encode(i), s.open), 1)
    decreases i, 0
  {
    match i
    case Data(b) => FeedOne(s, Datum(b));
    case List(items) =>
      if items == [] {
        assert Tokens(i) == [Open(0)];
        FeedOne(s, Open(0));
      } else {
        var inside := Stream(s.out, s.open + [OpenList(|items|, |s.out|)]);
        assert Tokens(i)[1..] == TokensAll(items);
        StepWellFormed(s, Open(|items|));
        FeedItems(s, items, |items|, [], inside);
        assert EncodeAll(items) == [] + EncodeAll(items);
        assert Encode(i) == Header(LIST_START, |EncodeAll(items)|) + EncodeAll(items);
      }
  }

  lemma FeedOne(s: Stream, t: Token)
    requires WellFormed(s)
    ensures Feed(s, [t]) == Step(s, t)
  {
    StepWellFormed(s, t);
    var r := Step(s, t);
    if r.Some? { assert [t][1..] == []; assert Feed(r.value, []) == Some(r.value); }
  }

  /** Inside a list whose first items have the encoding done: the rest of the items close it. */
  lemma {:induction false} FeedItems(s: Stream, items: seq<Item>, left: nat, done: Bytes, now: Stream)
    requires WellFormed(s) && left == |items| > 0
    requires now == Stream(s.out + done, s.open + [OpenList(left, |s.out|)]) && WellFormed(now)
    requires forall k :: 0 <= k < |items| ==> Fits(items[k])
    requires |done + EncodeAll(items)| < LENGTH_LIMIT
    ensures var p := done + EncodeAll(items);
            Feed(now, TokensAll(items)) == Note(Stream(s.out + (Header(LIST_START, |p|) + p), s.open), 1)
    decreases items, 1
  {
    FeedItem(now, items[0]);
    var done' := done + Encode(items[0]);
    var next := Stream(now.out + Encode(items[0]), now.open);
    assert next.out == s.out + done';
    assert done + EncodeAll(items) == done' + EncodeAll(items[1..]);
    if left > 1 {
      var after := Stream(s.out + done', s.open + [OpenList(left - 1, |s.out|)]);
      CountDown(s, done', left);
      NoteWellFormed(next, 1);
      FeedAppend(now, Tokens(items[0]), TokensAll(items[1..]));
      FeedItems(s, items[1..], left - 1, done', after);
    } else {
      assert TokensAll(items) == Tokens(items[0]) && EncodeAll(items[1..]) == [];
      assert done' + [] == done';
      CloseList(s, done');
    }
  }

  /** An item that is not the last lowers the count of the list on top. */
  lemma CountDown(s: Stream, done: Bytes, left: nat)
    requires left > 1
    requires WellFormed(Stream(s.out + done, s.open + [OpenList(left, |s.out|)]))
    ensures Note(Stream(s.out + done, s.open + [OpenList(left, |s.out|)]), 1) ==
            Some(Stream(s.out + done, s.open + [OpenList(left - 1, |s.out|)]))
  {
    assert (s.open + [OpenList(left, |s.out|)])[..|s.open|] == s.open;
  }

  /** The last item closes the list on top. */
  lemma CloseList(s: Stream, done: Bytes)
    requires WellFormed(s) && |done| < LENGTH_LIMIT
    requires WellFormed(Stream(s.out + done, s.open + [OpenList(1, |s.out|)]))
    ensures Note(Stream(s.out + done, s.open + [OpenList(1, |s.out|)]), 1) ==
            Note(Stream(s.out + (Header(LIST_START, |done|) + done), s.open), 1)
  {
    EightBytes(|done|);
    var now := Stream(s.out + done, s.open + [OpenList(1, |s.out|)]);
    assert now.open[..|s.open|] == s.open;
    assert now.out[..|s.out|] == s.out && now.out[|s.out|..] == done;
    assert Patched(now.out, |s.out|) == s.out + (Header(LIST_START, |done|) + done);
  }

  /** On a fresh stream: the output is the encoding, and no list is left open. */
  lemma StreamWritesEncoding(i: Item)
    requires Fits(i)
    ensures Feed(EMPTY, Tokens(i)) == Some(Stream(Encode(i), []))
  {
    FeedItem(EMPTY, i);
    assert [] + Encode(i) == Encode(i);
  }
  // ----- when the list stack is empty

  /** Strings still owed to the open lists: each list below the top owes one slot to the list above it. */
  ghost function Owed(open: seq<OpenList>): int
    decreases |open|
  {
    if open == [] then 0
    else if |open| == 1 then open[0].left
    else Owed(open[..|open| - 1]) - 1 + open[|open| - 1].left
  }

  /** The same number from the calls alone: an item fills a slot, a list declares its own. */
  function OwedAfter(owed: nat, ts: seq<Token>): nat
    decreases |ts|
  {
    if ts == [] then owed
    else
      var declared := match ts[0] case Open(n) => n case Datum(_) => 0;
      OwedAfter((if owed > 0 then owed - 1 else 0) + declared, ts[1..])
  }

  lemma {:induction false} OwedPositive(s: Stream)
    requires WellFormed(s)
    ensures s.open == [] <==> Owed(s.open) == 0
    ensures Owed(s.open) >= 0
    decreases |s.open|
  {
    if |s.open| > 1 {
      var below := Stream(s.out, s.open[..|s.open| - 1]);
      OwedPositive(below);
    }
  }

  lemma OwedTop(below: seq<OpenList>, e: OpenList)
    ensures Owed(below + [e]) == (if below == [] then 0 else Owed(below) - 1) + e.left
  {
    assert (below + [e])[..|below|] == below;
  }

  /** One more item either lowers the top count or closes the top list and counts as an item below it. */
  lemma NoteOne(s: Stream) returns (s': Stream)
    requires WellFormed(s) && s.open != [] && Note(s, 1).Some?
    ensures WellFormed(s')
    ensures var top := |s.open| - 1;
            var OpenList(items, p) := s.open[top];
            if items > 1 then s'.open == s.open[..top] + [OpenList(items - 1, p)] && Note(s, 1) == Some(s')
            else items == 1 && s'.open == s.open[..top] && Note(s, 1) == Note(s', 1)
  {
    var top := |s.open| - 1;
    var OpenList(items, p) := s.open[top];
    s' := if items > 1 then Stream(s.out, s.open[..top] + [OpenList(items - 1, p)])
          else Stream(Patched(s.out, p), s.open[..top]);
  }

  lemma {:induction false} OwedNote(s: Stream)
    requires WellFormed(s) && Note(s, 1).Some?
    ensures Owed(Note(s, 1).value.open) == if s.open == [] then 0 else Owed(s.open) - 1
    decreases |s.open|
  {
    if s.open != [] {
      var top := |s.open| - 1;
      var e, below := s.open[top], s.open[..top];
      assert s.open == below + [e];
      OwedTop(below, e);
      var s' := NoteOne(s);
      if e.left > 1 {
        assert Note(s, 1).value.open == below + [OpenList(e.left - 1, e.start)];
        OwedTop(below, OpenList(e.left - 1, e.start));
      } else {
        assert s'.open == below && Note(s, 1) == Note(s', 1);
        OwedNote(s');
      }
    }
  }

  lemma OwedStep(s: Stream, t: Token)
    requires WellFormed(s) && Step(s, t).Some?
    ensures Owed(Step(s, t).value.open)
            == (if s.open == [] then 0 else Owed(s.open) - 1) + match t case Open(n) => n case Datum(_) => 0
  {
    match t
    case Datum(b) => OwedNote(Stream(s.out + Encode(Data(b)), s.open));
    case Open(n) =>
      if n == 0 { OwedNote(Stream(s.out + Encode(List([])), s.open)); }
      else { assert (s.open + [OpenList(n, |s.out|)])[..|s.open|] == s.open; }
  }

  /** No list is open exactly when the items appended fill all declared slots. */
  lemma {:induction false} StackEmptyIff(s: Stream, ts: seq<Token>)
    requires WellFormed(s) && Feed(s, ts).Some?
    ensures Owed(s.open) >= 0
    ensures Feed(s, ts).value.open == [] <==> OwedAfter(Owed(s.open), ts) == 0
    decreases |ts|
  {
    OwedPositive(s);
    if ts != [] {
      StepWellFormed(s, ts[0]);
      OwedStep(s, ts[0]);
      StackEmptyIff(Step(s, ts[0]).value, ts[1..]);
    }
  }

  // ----- the stream object

  /** A string without its leading zeros. */
  function Stripped(b: Bytes): (r: Bytes)
    ensures |r| <= |b| && (r != [] ==> r[0] != 0)
  {
    if b == [] || b[0] != 0 then b else Stripped(b[1..])
  }

  /** The loop of append over the leading zeros: what is left says the same number. */
  method Strip(b: Bytes) returns (d: Bytes)
    ensures d == Stripped(b) && FromBigEndian(d) == FromBigEndian(b)
  {
    d := b;
    while d != [] && d[0] == 0
      invariant Stripped(d) == Stripped(b) && FromBigEndian(d) == FromBigEndian(b)
      decreases |d|
    {
      ZeroInFront(d);
      d := d[1..];
    }
  }

  lemma {:induction false} ZeroInFront(b: Bytes)
    requires b != [] && b[0] == 0
    ensures FromBigEndian(b[1..]) == FromBigEndian(b)
  {
    if |b| > 1 {
      var init := b[..|b| - 1];
      ZeroInFront(init);
      assert b[1..][..|b| - 2] == init[1..];
    }
  }

  class RLPStream {
    var out: Bytes                    // m_out
    var listStack: seq<OpenList>    // m_listStack

    ghost function State(): Stream
      reads this
    {
      Stream(out, listStack)
    }

    ghost predicate Valid()
      reads this
    {
      WellFormed(State())
    }

    constructor ()
      ensures Valid() && State() == EMPTY
    {
      out, listStack := [], [];
    }

    /** Writes i big-endian so that its last byte comes just before end, from the last byte to the first. */
    method WriteBackwards(end: nat, i: nat)
      requires BytesRequired(i) <= end <= |out|
      modifies `out
      ensures |out| == |old(out)| && out[..end - BytesRequired(i)] == old(out)[..end - BytesRequired(i)]
              && out[end..] == old(out)[end..]
      ensures out[end - BytesRequired(i)..end] == BigEndian(i)
    {
      var b, rest := end, i;
      ghost var start := end - BytesRequired(i);
      while rest > 0
        invariant |out| == |old(out)| && start <= b <= end && b == start + BytesRequired(rest)
        invariant out[..start] == old(out)[..start] && out[end..] == old(out)[end..]
        invariant BigEndian(rest) + out[b..end] == BigEndian(i)
        decreases rest
      {
        b := b - 1;
        OneByte(rest, out, b, end);
        out := out[b := rest % 256];
        rest := rest / 256;
      }
    }

    /** pushInt: i in br bytes at the end of the output. */
    method PushInt(i: nat, br: nat)
      requires br == BytesRequired(i)
      modifies `out
      ensures out == old(out) + BigEndian(i)
    {
      out := out + seq(br, _ => 0);
      WriteBackwards(|out|, i);
      assert out == out[..|out| - br] + out[|out| - br..];
    }

    /** noteAppended: closes every list whose count is met, patching its header in. */
    method NoteAppended(itemCount: nat) returns (ok: bool)
      requires Valid()
      modifies this
      ensures ok <==> Note(old(State()), itemCount).Some?
      ensures ok ==> State() == Note(old(State()), itemCount).value && Valid()
    {
      if itemCount == 0 { return true; }
      NoteWellFormed(State(), itemCount);
      var count := itemCount;
      while listStack != []
        invariant Valid() && count > 0 && Note(State(), count) == Note(old(State()), itemCount)
        decreases |listStack|
      {
        var top := |listStack| - 1;
        var items, p := listStack[top].left, listStack[top].start;
        if items < count { return false; }
        if items > count {
          listStack := listStack[..top] + [OpenList(items - count, p)];
          return true;
        }
        var s := |out| - p;
        var brs := BytesRequired(s);
        SizeNeedsEight(s);
        if s >= IMM_LEN_COUNT && LIST_IND_ZERO + brs > 0xff { return false; }
        listStack := listStack[..top];
        PatchHeader(p);
        count := 1;
      }
      ok := true;
    }

    /** Makes room at p by moving the tail up, then writes the list header there. */
    method PatchHeader(p: nat)
      requires p <= |out| && |out| - p <= MAX_SIZE
      modifies `out
      ensures out == Patched(old(out), p)
    {
      var s := |out| - p;
      var brs := BytesRequired(s);
      var encodeSize := if s < IMM_LEN_COUNT then 1 else 1 + brs;
      EightBytes(s);
      MakeRoom(p, encodeSize);
      if s < IMM_LEN_COUNT {
        out := out[p := LIST_START + s];
        Reassemble(out, p, encodeSize, old(out)[..p], [LIST_START + s], old(out)[p..]);
      } else {
        out := out[p := LIST_IND_ZERO + brs];
        WriteBackwards(p + 1 + brs, s);
        assert out[..p] == out[..p + 1][..p];
        assert out[p..p + encodeSize] == [out[..p + 1][p]] + out[p + 1..p + 1 + brs];
        Reassemble(out, p, encodeSize, old(out)[..p], Header(LIST_START, s), old(out)[p..]);
      }
    }

    /** Extends the output and moves its tail up by n bytes (resize and memmove). */
    method MakeRoom(p: nat, n: nat)
      requires p <= |out|
      modifies `out
      ensures |out| == |old(out)| + n && out[..p] == old(out)[..p] && out[p + n..] == old(out)[p..]
    {
      var os := |out|;
      out := out + seq(n, _ => 0);
      out := out[..p + n] + out[p..os];
    }

    /** append(bytes, compact): one string, without its leading zeros if compact. */
    method Append(b: Bytes, compact: bool) returns (ok: bool)
      requires Valid() && |b| <= MAX_SIZE
      modifies this
      ensures var t := Datum(if compact then Stripped(b) else b);
              (ok <==> Step(old(State()), t).Some?) && (ok ==> State() == Step(old(State()), t).value && Valid())
    {
      var d := b;
      if compact {
        d := Strip(b);
      }
      PutString(d);
      ok := NoteAppended(1);
    }

    /** The bytes of a string item, header first. */
    method PutString(d: Bytes)
      requires |d| <= MAX_SIZE
      modifies `out
      ensures out == old(out) + Encode(Data(d))
    {
      if |d| == 1 && d[0] < DATA_START {
        out := out + d;
      } else {
        if |d| < IMM_LEN_COUNT {
          out := out + [DATA_START + |d|];
        } else {
          EightBytes(|d|);
          out := out + [DATA_IND_ZERO + BytesRequired(|d|)];
          PushInt(|d|, BytesRequired(|d|));
        }
        out := out + d;
      }
    }

    /** appendList(n): announces a list; the empty list is written at once. */
    method AppendList(n: nat) returns (ok: bool)
      requires Valid()
      modifies this
      ensures ok <==> Step(old(State()), Open(n)).Some?
      ensures ok ==> State() == Step(old(State()), Open(n)).value && Valid()
    {
      StepWellFormed(State(), Open(n));
      if n > 0 {
        listStack := listStack + [OpenList(n, |out|)];
        ok := true;
      } else {
        out := out + [LIST_START];
        assert Encode(List([])) == [LIST_START];
        ok := NoteAppended(1);
      }
    }
  }

  lemma OneByte(rest: nat, out: Bytes, b: nat, end: nat)
    requires rest > 0 && b < end <= |out|
    ensures BigEndian(rest / 256) + out[b := rest % 256][b..end] == BigEndian(rest) + out[b + 1..end]
    ensures BytesRequired(rest) == BytesRequired(rest / 256) + 1
  {
    assert out[b := rest % 256][b..end] == [rest % 256] + out[b + 1..end];
  }

  lemma Reassemble(out: Bytes, p: nat, n: nat, front: Bytes, mid: Bytes, back: Bytes)
    requires p + n <= |out| && out[..p] == front && out[p..p + n] == mid && out[p + n..] == back
    ensures out == front + mid + back
  {
    assert out == out[..p] + out[p..p + n] + out[p + n..];
  }

  lemma {:induction false} TokensFit(i: Item)
    requires Fits(i)
    ensures forall k :: 0 <= k < |Tokens(i)| && Tokens(i)[k].Datum? ==> |Tokens(i)[k].b| < LENGTH_LIMIT
    decreases i, 0
  {
    if i.List? { TokensAllFit(i.items); }
  }

  lemma {:induction false} TokensAllFit(items: seq<Item>)
    requires forall k :: 0 <= k < |items| ==> Fits(items[k])
    ensures forall k :: 0 <= k < |TokensAll(items)| && TokensAll(items)[k].Datum? ==>
            |TokensAll(items)[k].b| < LENGTH_LIMIT
    decreases items, 1
  {
    if items != [] {
      TokensFit(items[0]);
      TokensAllFit(items[1..]);
    }
  }

  /** A length takes at most eight bytes exactly when it is a size_t. */
  lemma SizeNeedsEight(n: nat)
    ensures BytesRequired(n) <= 8 <==> n <= MAX_SIZE
  {
    if n <= MAX_SIZE { EightBytes(n); } else { MoreThanEight(n); }
  }

  lemma MoreThanEight(n: nat)
    requires n > MAX_SIZE
    ensures BytesRequired(n) > 8
  {
    var a := n / 256; var b := a / 256; var c := b / 256; var d := c / 256;
    var e := d / 256; var f := e / 256; var g := f / 256; var h := g / 256;
    assert h > 0;
    assert BytesRequired(h) >= 1;
    assert BytesRequired(g) >= 2;
    assert BytesRequired(f) >= 3;
    assert BytesRequired(e) >= 4;
    assert BytesRequired(d) >= 5;
    assert BytesRequired(c) >= 6;
    assert BytesRequired(b) >= 7;
    assert BytesRequired(a) >= 8;
  }

  /** Writes an item tree with one stream, list after nested list: the result is the RLP encoding. */
  method WriteItem(i: Item) returns (out: Bytes)
    requires Fits(i)
    ensures out == Encode(i)
  {
    var s := new RLPStream();
    assert Feed(s.State(), Tokens(i)).Some? by { StreamWritesEncoding(i); }
    TokensFit(i);
    WriteTokens(s, Tokens(i));
    StreamWritesEncoding(i);
    out := s.out;
  }

  /** Issues the calls one by one. */
  method WriteTokens(s: RLPStream, ts: seq<Token>)
    requires s.Valid() && Feed(s.State(), ts).Some?
    requires forall k :: 0 <= k < |ts| && ts[k].Datum? ==> |ts[k].b| <= MAX_SIZE
    modifies s
    ensures s.Valid() && Some(s.State()) == Feed(old(s.State()), ts)
  {
    var k := 0;
    while k < |ts|
      invariant 0 <= k <= |ts| && s.Valid() && Feed(s.State(), ts[k..]) == Feed(old(s.State()), ts)
    {
      assert ts[k..][0] == ts[k] && ts[k..][1..] == ts[k + 1..];
      var ok;
      match ts[k] {
        case Open(n) => ok := s.AppendList(n);
        case Datum(b) => ok := s.Append(b, false);
      }
      k := k + 1;
    }
  }
}
