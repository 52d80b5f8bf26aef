/**
 * RangeMask: a set of numbers inside a ground range, kept as an ordered map from the begin to the
 * end of disjoint intervals, with a union that merges intervals in place.
 */
module RangeMasks {
  import opened Nibbles

  type Ranges = map<int, int>

  /** x lies in one of the intervals. */
  predicate In(r: Ranges, x: int) {
    exists a :: a in r && a <= x < r[a]
  }

  /** Intervals are non-empty, inside [lo, hi), and neither overlap nor touch. */
  ghost predicate WellFormed(r: Ranges, lo: int, hi: int) {
    && lo <= hi
    && (forall a :: a in r ==> lo <= a < r[a] <= hi)
    && (forall a, b :: a in r && b in r && a < b ==> r[a] < b)
  }

  // ----- std::map navigation

  lemma Member(s: set<int>) returns (x: int)
    requires s != {}
    ensures x in s
  {
    NonEmpty(s);
    x :| x in s;
  }

  lemma NonEmpty(s: set<int>)
    ensures s == {} || exists y :: y in s
  {
    if forall y :: y !in s { assert s == {}; }
  }

  lemma {:induction false} LeastExists(s: set<int>)
    requires s != {}
    ensures exists k :: k in s && forall j :: j in s ==> k <= j
  {
    var x := Member(s);
    if s != {x} {
      LeastExists(s - {x});
      var k :| k in s - {x} && forall j :: j in s - {x} ==> k <= j;
      var m := if x < k then x else k;
      assert forall j :: j in s ==> j == x || j in s - {x};
      assert m in s && forall j :: j in s ==> m <= j;
    }
  }

  /** upper_bound(i): the first interval that begins after i. */
  function After(r: Ranges, i: int): (k: Option<int>)
    ensures k.Some? ==> k.value in r && k.value > i && forall j :: j in r && j > i ==> k.value <= j
    ensures k.None? ==> forall j :: j in r ==> j <= i
  {
    var s := set j | j in r && j > i;
    if s == {} then (assert forall j :: j in r && j > i ==> j in s; None)
    else (
      LeastExists(s);
      assert exists k :: k in s && forall j :: j in s ==> k <= j;
      var k :| k in s && forall j :: j in s ==> k <= j;
      assert forall j :: j in r && j > i ==> j in s;
      Some(k)
    )
  }

  lemma {:induction false} GreatestExists(s: set<int>)
    requires s != {}
    ensures exists k :: k in s && forall j :: j in s ==> j <= k
  {
    var x := Member(s);
    if s != {x} {
      GreatestExists(s - {x});
      var k :| k in s - {x} && forall j :: j in s - {x} ==> j <= k;
      var m := if x > k then x else k;
      assert forall j :: j in s ==> j == x || j in s - {x};
      assert m in s && forall j :: j in s ==> j <= m;
    }
  }

  /** The interval before upper_bound(i): the last one that begins at or before i. */
  function AtOrBefore(r: Ranges, i: int): (k: Option<int>)
    ensures k.Some? ==> k.value in r && k.value <= i && forall j :: j in r && j <= i ==> j <= k.value
    ensures k.None? ==> forall j :: j in r ==> j > i
  {
    var s := set j | j in r && j <= i;
    if s == {} then (assert forall j :: j in r && j <= i ==> j in s; None)
    else (
      GreatestExists(s);
      assert exists k :: k in s && forall j :: j in s ==> j <= k;
      var k :| k in s && forall j :: j in s ==> j <= k;
      assert forall j :: j in r && j <= i ==> j in s;
      Some(k)
    )
  }

  /** The only interval that can hold x is the last one that begins at or before it. */
  lemma InIff(r: Ranges, lo: int, hi: int, x: int)
    requires WellFormed(r, lo, hi)
    ensures In(r, x) <==> AtOrBefore(r, x).Some? && x < r[AtOrBefore(r, x).value]
  {
    if In(r, x) {
      var a :| a in r && a <= x < r[a];
    }
  }

  // ----- a well-formed map is determined by the set it denotes

  lemma {:induction false} RangesUnique(r: Ranges, s: Ranges, lo: int, hi: int)
    requires WellFormed(r, lo, hi) && WellFormed(s, lo, hi)
    requires forall x :: In(r, x) <==> In(s, x)
    ensures r == s
  {
    forall a | a in r ensures a in s && s[a] == r[a] { SameInterval(r, s, lo, hi, a); }
    forall a | a in s ensures a in r { SameInterval(s, r, lo, hi, a); }
  }

  lemma SameInterval(r: Ranges, s: Ranges, lo: int, hi: int, a: int)
    requires WellFormed(r, lo, hi) && WellFormed(s, lo, hi) && a in r
    requires forall x :: In(r, x) <==> In(s, x)
    ensures a in s && s[a] == r[a]
  {
    assert In(r, a);
    var b :| b in s && b <= a < s[b];
    NotJustBefore(r, lo, hi, a);
    Inside(s, b, a - 1);
    assert b == a;
    NotAtEnd(r, lo, hi, a);
    NotAtEnd(s, lo, hi, a);
    Inside(r, a, s[a]);
    Inside(s, a, r[a]);
  }

  lemma Inside(r: Ranges, c: int, x: int)
    ensures c in r && c <= x < r[c] ==> In(r, x)
  {
  }

  lemma NotJustBefore(r: Ranges, lo: int, hi: int, a: int)
    requires WellFormed(r, lo, hi) && a in r
    ensures !In(r, a - 1)
  {
    assert forall c :: c in r && c < a ==> r[c] < a;
  }

  lemma NotAtEnd(r: Ranges, lo: int, hi: int, a: int)
    requires WellFormed(r, lo, hi) && a in r
    ensures !In(r, r[a])
  {
    assert forall c :: c in r && c > a ==> c > r[a];
  }
  // ----- one step of the merging union

  /** What is still missing of [i, end) together with r is what was wanted. */
  ghost predicate Pending(r: Ranges, i: int, end: int, r0: Ranges, begin: int) {
    forall x :: (In(r, x) || i <= x < end) <==> (In(r0, x) || begin <= x < end)
  }

  /** A new interval [i, e) where nothing was and nothing touches: any interval b in (i, e] is absorbed. */
  lemma NewInterval(r: Ranges, lo: int, hi: int, i: int, e: int, gone: set<int>)
    requires WellFormed(r, lo, hi) && lo <= i < e <= hi
    requires forall a :: a in r && a <= i ==> r[a] < i
    requires gone <= r.Keys && forall a :: a in gone ==> i < a && r[a] <= e
    requires forall a :: a in r && a > i && a !in gone ==> a > e
    ensures var r' := r[i := e] - gone;
            WellFormed(r', lo, hi) && forall x :: In(r', x) <==> In(r, x) || i <= x < e
  {
    var r' := r[i := e] - gone;
    assert i !in gone;
    forall x ensures In(r', x) <==> In(r, x) || i <= x < e {
      if In(r, x) {
        var a :| a in r && a <= x < r[a];
        if a in gone { assert i in r' && i <= x < r'[i]; } else { assert a in r' && a <= x < r'[a]; }
      }
      if i <= x < e { assert i in r' && i <= x < r'[i]; }
    }
  }

  /** The interval that begins at c grows to e and absorbs the intervals in gone. */
  lemma GrownInterval(r: Ranges, lo: int, hi: int, c: int, e: int, gone: set<int>)
    requires WellFormed(r, lo, hi) && c in r && r[c] <= e <= hi
    requires gone <= r.Keys && forall a :: a in gone ==> c < a && r[a] <= e
    requires forall a :: a in r && a > c && a !in gone ==> a > e
    ensures var r' := r[c := e] - gone;
            WellFormed(r', lo, hi) && forall x :: In(r', x) <==> In(r, x) || r[c] <= x < e
  {
    var r' := r[c := e] - gone;
    assert c !in gone;
    forall x ensures In(r', x) <==> In(r, x) || r[c] <= x < e {
      if In(r, x) {
        var a :| a in r && a <= x < r[a];
        if a in gone || a == c { assert c in r' && c <= x < r'[c]; } else { assert a in r' && a <= x < r'[a]; }
      }
      if r[c] <= x < e { assert c in r' && c <= x < r'[c]; }
      if In(r', x) {
        var a :| a in r' && a <= x < r'[a];
        if a == c && x < r[c] { assert c in r && c <= x < r[c]; }
      }
    }
  }

  /** Nothing touches i from below and nothing begins in (i, to]: [i, to) becomes an interval of its own. */
  lemma StepNew(r: Ranges, lo: int, hi: int, i: int, to: int, r0: Ranges, from: int)
    requires WellFormed(r, lo, hi) && lo <= i < to <= hi && Pending(r, i, to, r0, from)
    requires AtOrBefore(r, i).Some? ==> r[AtOrBefore(r, i).value] < i
    requires After(r, i).Some? ==> After(r, i).value > to
    ensures WellFormed(r[i := to], lo, hi) && Pending(r[i := to], to, to, r0, from)
  {
    NewInterval(r, lo, hi, i, to, {});
    assert r[i := to] - {} == r[i := to];
  }

  /** Nothing touches i from below: [i, to) starts an interval that takes over the next one. */
  lemma StepTakeOver(r: Ranges, lo: int, hi: int, i: int, to: int, r0: Ranges, from: int)
    requires WellFormed(r, lo, hi) && lo <= i < to <= hi && Pending(r, i, to, r0, from)
    requires AtOrBefore(r, i).Some? ==> r[AtOrBefore(r, i).value] < i
    requires After(r, i).Some? && After(r, i).value <= to
    ensures var n := After(r, i).value;
            var r' := r[i := r[n]] - {n};
            r[n] > i && WellFormed(r', lo, hi) && Pending(r', r[n], to, r0, from)
  {
    var n := After(r, i).value;
    NewInterval(r, lo, hi, i, r[n], {n});
    forall x | i <= x < r[n] ensures i <= x < to || In(r, x) { Inside(r, n, x); }
  }

  /** An interval ends at i and nothing begins in (i, to]: it grows to to. */
  lemma StepGrow(r: Ranges, lo: int, hi: int, i: int, to: int, r0: Ranges, from: int)
    requires WellFormed(r, lo, hi) && lo <= i < to <= hi && Pending(r, i, to, r0, from)
    requires AtOrBefore(r, i).Some? && r[AtOrBefore(r, i).value] == i
    requires After(r, i).Some? ==> After(r, i).value > to
    ensures var c := AtOrBefore(r, i).value;
            WellFormed(r[c := to], lo, hi) && Pending(r[c := to], to, to, r0, from)
  {
    var c := AtOrBefore(r, i).value;
    GrownInterval(r, lo, hi, c, to, {});
    assert r[c := to] - {} == r[c := to];
  }

  /** An interval ends at i and another begins in (i, to]: they become one. */
  lemma StepBridge(r: Ranges, lo: int, hi: int, i: int, to: int, r0: Ranges, from: int)
    requires WellFormed(r, lo, hi) && lo <= i < to <= hi && Pending(r, i, to, r0, from)
    requires AtOrBefore(r, i).Some? && r[AtOrBefore(r, i).value] == i
    requires After(r, i).Some? && After(r, i).value <= to
    ensures var c, n := AtOrBefore(r, i).value, After(r, i).value;
            var r' := r[c := r[n]] - {n};
            r[n] > i && WellFormed(r', lo, hi) && Pending(r', r[n], to, r0, from)
  {
    var c, n := AtOrBefore(r, i).value, After(r, i).value;
    GrownInterval(r, lo, hi, c, r[n], {n});
    forall x | i <= x < r[n] ensures i <= x < to || In(r, x) { Inside(r, n, x); }
  }

  /** i lies inside an interval: go on where it ends. */
  lemma StepSkip(r: Ranges, lo: int, hi: int, i: int, to: int, r0: Ranges, from: int)
    requires WellFormed(r, lo, hi) && Pending(r, i, to, r0, from)
    requires AtOrBefore(r, i).Some? && r[AtOrBefore(r, i).value] > i
    ensures Pending(r, r[AtOrBefore(r, i).value], to, r0, from)
  {
    var c := AtOrBefore(r, i).value;
    forall x | i <= x < r[c] ensures In(r, x) { Inside(r, c, x); }
  }

  /** unionWith(Range): adds [from, to) to the intervals, extending, taking over and bridging as it goes. */
  method Merge(ranges: Ranges, lo: int, hi: int, from: int, to: int) returns (r: Ranges)
    requires WellFormed(ranges, lo, hi) && (from < to ==> lo <= from && to <= hi)
    ensures WellFormed(r, lo, hi)
    ensures forall x :: In(r, x) <==> In(ranges, x) || from <= x < to
  {
    var i := from;
    r := ranges;
    while i < to
      invariant WellFormed(r, lo, hi) && from <= i && Pending(r, i, to, ranges, from)
      decreases if i < to then to - i else 0
    {
      var after, it := After(r, i), AtOrBefore(r, i);
      if it.None? || r[it.value] < i {
        // before the first interval or between two, not touching the one before
        if after.None? || after.value > to {
          StepNew(r, lo, hi, i, to, ranges, from);
          r := r[i := to];
          i := to;
        } else {
          StepTakeOver(r, lo, hi, i, to, ranges, from);
          var e := r[after.value];
          r := r[i := e] - {after.value};
          i := e;
        }
      } else if r[it.value] == i {
        if after.None? || after.value > to {
          StepGrow(r, lo, hi, i, to, ranges, from);
          r := r[it.value := to];
          i := to;
        } else {
          StepBridge(r, lo, hi, i, to, ranges, from);
          var e := r[after.value];
          r := r[it.value := e] - {after.value};
          i := e;
        }
      } else {
        StepSkip(r, lo, hi, i, to, ranges, from);
        i := r[it.value];
      }
    }
  }

  /** unionWith(RangeMask): adds the intervals of another mask one after the other. */
  method MergeAll(ranges: Ranges, lo: int, hi: int, m: Ranges, mlo: int, mhi: int) returns (r: Ranges)
    requires WellFormed(ranges, lo, hi) && WellFormed(m, mlo, mhi) && lo <= mlo && mhi <= hi
    ensures WellFormed(r, lo, hi)
    ensures forall x :: In(r, x) <==> In(ranges, x) || In(m, x)
  {
    r := ranges;
    var next := FirstKey(m);
    ghost var done := mlo;
    while next.Some?
      invariant WellFormed(r, lo, hi) && Cursor(m, next, done)
      invariant forall x :: In(r, x) <==> In(ranges, x) || InBefore(m, done, x)
      decreases Left(m, mhi, next)
    {
      var a := next.value;
      CursorStep(m, mlo, mhi, next, done);
      r := Merge(r, lo, hi, a, m[a]);
      next := After(m, a);
      done := a + 1;
    }
    assert forall x :: InBefore(m, done, x) <==> In(m, x);
  }

  /** Adds up the lengths of the intervals. */
  lemma CountStep(r: Ranges, lo: int, hi: int, next: Option<int>, done: int)
    requires WellFormed(r, lo, hi) && Cursor(r, next, done) && next.Some?
    ensures var a := next.value;
            Cursor(r, After(r, a), a + 1) && |Below(r, lo, hi, a + 1)| == |Below(r, lo, hi, done)| + (r[a] - a)
            && 0 <= r[a] - a && Left(r, hi, After(r, a)) < Left(r, hi, next)
  {
    BelowStep(r, lo, hi, done, next.value);
    CursorStep(r, lo, hi, next, done);
  }

  method CountMembers(r: Ranges, lo: int, hi: int) returns (c: nat)
    requires WellFormed(r, lo, hi)
    ensures c == |set x | lo <= x < hi && In(r, x)|
  {
    c := 0;
    var next := FirstKey(r);
    ghost var done := lo;
    assert Below(r, lo, hi, done) == {};
    while next.Some?
      invariant Cursor(r, next, done) && c == |Below(r, lo, hi, done)|
      decreases Left(r, hi, next)
    {
      var a := next.value;
      c := c + (r[a] - a);
      CountStep(r, lo, hi, next, done);
      next := After(r, a);
      done := a + 1;
    }
    AllBelow(r, lo, hi, done);
  }

  /** n is the first member from u on, or the end when there is none. */
  ghost predicate Follows(r: Ranges, end: int, u: int, n: int) {
    n <= end && (n == end || (u <= n && In(r, n))) && (n == end ==> !In(r, n)) && forall x :: u <= x < n ==> !In(r, x)
  }

  method FirstFrom(r: Ranges, lo: Unsigned, hi: Unsigned, u: Unsigned) returns (n: Unsigned)
    requires WellFormed(r, lo, hi)
    ensures Follows(r, hi, u, n)
  {
    var uit, it := After(r, u), AtOrBefore(r, u);
    if it.Some? && r[it.value] > u {
      Inside(r, it.value, u);
      return u;
    }
    n := if uit.None? then hi else uit.value;
    forall x | u <= x < n ensures !In(r, x) { NoneBetween(r, lo, hi, u, x); }
    if uit.Some? { Inside(r, n, n); }
  }

  /** s lists the members below a value, ascending. */
  ghost predicate Listed(r: Ranges, s: seq<int>, value: int) {
    (forall i, j :: 0 <= i < j < |s| ==> s[i] < s[j]) && forall x :: x in s <==> In(r, x) && x < value
  }

  lemma ListedStep(r: Ranges, end: int, s: seq<int>, value: int, next: int)
    requires Listed(r, s, value) && In(r, value) && value < end && Follows(r, end, value + 1, next)
    ensures value < next && Listed(r, s + [value], next)
  {
    forall i | 0 <= i < |s| ensures s[i] < value { assert s[i] in s; }
    forall x ensures x in s + [value] <==> In(r, x) && x < next {
      assert value < x < next ==> !In(r, x);
    }
  }

  /** The gaps between the intervals, from the first element of the ground range to its end. */
  method Complement(ranges: Ranges, lo: int, hi: int) returns (r: Ranges)
    requires WellFormed(ranges, lo, hi)
    ensures WellFormed(r, lo, hi)
    ensures forall x :: In(r, x) <==> lo <= x < hi && !In(ranges, x)
  {
    r := map[];
    var last := lo;
    var next := FirstKey(ranges);
    while next.Some?
      invariant Complemented(ranges, lo, hi, r, last, next)
      decreases Left(ranges, hi, next)
    {
      GapThenInterval(ranges, lo, hi, r, last, next);
      var a := next.value;
      if a != last { r := r[last := a]; }
      last := ranges[a];
      next := After(ranges, a);
    }
    LastGap(ranges, lo, hi, r, last);
    if last != hi { r := r[last := hi]; }
  }

  /** unsigned, of 32 bits. */
  type Unsigned = x: int | 0 <= x <= 0xffff_ffff

  class RangeMask {
    var begin: Unsigned  // m_all
    var end: Unsigned
    var ranges: Ranges   // m_ranges

    ghost predicate Valid()
      reads this
    {
      WellFormed(ranges, begin, end)
    }

    constructor (begin: Unsigned, end: Unsigned)
      requires begin <= end
      ensures Valid() && this.begin == begin && this.end == end && ranges == map[]
    {
      this.begin, this.end, ranges := begin, end, map[];
    }

    /** Adds [from, to), which lies in the ground range, merging whatever it meets. */
    method UnionWithRange(from: Unsigned, to: Unsigned)
      requires Valid() && (from < to ==> begin <= from && to <= end)
      modifies `ranges
      ensures Valid()
      ensures forall x :: In(ranges, x) <==> In(old(ranges), x) || from <= x < to
    {
      ranges := Merge(ranges, begin, end, from, to);
    }

    /** Union with another mask, or with itself: the ground ranges are joined, then the intervals one by one. */
    method UnionWith(m: RangeMask)
      requires Valid() && m.Valid()
      modifies this
      ensures Valid()
      ensures begin == (if old(m.begin) < old(begin) then old(m.begin) else old(begin))
      ensures end == if old(m.end) > old(end) then old(m.end) else old(end)
      ensures forall x :: In(ranges, x) <==> In(old(ranges), x) || In(old(m.ranges), x)
    {
      var more, first, last := m.ranges, m.begin, m.end;
      begin := if first < begin then first else begin;
      end := if last > end then last else end;
      ranges := MergeAll(ranges, begin, end, more, first, last);
    }

    /** The complement in the ground range. */
    method Inverted() returns (r: Ranges)
      requires Valid()
      ensures WellFormed(r, begin, end)
      ensures forall x :: In(r, x) <==> begin <= x < end && !In(ranges, x)
    {
      r := Complement(ranges, begin, end);
    }

    method Invert()
      requires Valid()
      modifies `ranges
      ensures Valid() && forall x :: In(ranges, x) <==> begin <= x < end && !In(old(ranges), x)
    {
      ranges := Inverted();
    }

    /**
     * operator-=: complement, union, complement. A mask subtracted from itself is complemented
     * together with its operand and comes out unchanged.
     */
    method Subtract(m: RangeMask)
      requires Valid() && m.Valid() && begin <= m.begin && m.end <= end
      modifies this
      ensures Valid() && begin == old(begin) && end == old(end)
      ensures m != this ==> forall x :: In(ranges, x) <==> In(old(ranges), x) && !In(m.ranges, x)
      ensures m == this ==> ranges == old(ranges)
    {
      Invert();
      UnionWith(m);
      Invert();
      if m == this { RangesUnique(ranges, old(ranges), begin, end); }
    }

    method Contains(i: int) returns (b: bool)
      requires Valid()
      ensures b <==> In(ranges, i)
    {
      InIff(ranges, begin, end, i);
      var it := AtOrBefore(ranges, i);
      b := it.Some? && ranges[it.value] > i;
    }

    /** The smallest member above t, or the end of the ground range; above the largest number is zero. */
    method Next(t: Unsigned) returns (n: Unsigned)
      requires Valid()
      ensures Follows(ranges, end, (t + 1) % 0x1_0000_0000, n)
    {
      n := FirstFrom(ranges, begin, end, if t == 0xffff_ffff then 0 else t + 1);
    }

    /** Iteration from begin() to end(): the members in ascending order. */
    method Members() returns (s: seq<int>)
      requires Valid()
      ensures forall i, j :: 0 <= i < j < |s| ==> s[i] < s[j]
      ensures forall x :: x in s <==> In(ranges, x)
    {
      s := [];
      var value := if ranges == map[] then end else FirstKey(ranges).value;
      assert forall x :: In(ranges, x) ==> x >= value;
      while value != end
        invariant value <= end && (value != end ==> In(ranges, value))
        invariant Listed(ranges, s, value)
        decreases end - value
      {
        var next := Next(value);
        ListedStep(ranges, end, s, value, next);
        s := s + [value];
        value := next;
      }
    }

    /** The number of members. */
    method Size() returns (c: nat)
      requires Valid()
      ensures c == |set x | begin <= x < end && In(ranges, x)|
    {
      c := CountMembers(ranges, begin, end);
    }

    method Full() returns (b: bool)
      requires Valid()
      ensures b <==> forall x :: begin <= x < end ==> In(ranges, x)
    {
      b := begin == end || (|ranges| == 1 && FirstKey(ranges) == Some(begin) && ranges[begin] == end);
      if b {
        if begin != end { forall x | begin <= x < end ensures In(ranges, x) { Inside(ranges, begin, x); } }
      } else if forall x :: begin <= x < end ==> In(ranges, x) {
        CoversAll(ranges, begin, end);
      }
    }

    /** The smallest number of the ground range that is not a member, or its end. */
    method FirstOut() returns (n: int)
      requires Valid()
      ensures begin <= n <= end && !In(ranges, n) && forall x :: begin <= x < n ==> In(ranges, x)
    {
      if begin in ranges {
        n := ranges[begin];
        NotAtEnd(ranges, begin, end, begin);
        forall x | begin <= x < n ensures In(ranges, x) { Inside(ranges, begin, x); }
      } else {
        n := begin;
      }
    }
  }

  /** The interval with the smallest begin. */
  function FirstKey(r: Ranges): (k: Option<int>)
    ensures k.Some? ==> k.value in r && forall j :: j in r ==> k.value <= j
    ensures k.None? <==> r == map[]
  {
    if r == map[] then None
    else (
      assert r.Keys != {};
      LeastExists(r.Keys);
      var k :| k in r.Keys && forall j :: j in r.Keys ==> k <= j;
      Some(k)
    )
  }

  /** x lies in an interval that begins before limit. */
  ghost predicate InBefore(r: Ranges, limit: int, x: int) {
    exists a :: a in r && a < limit && a <= x < r[a]
  }

  /** next is the first interval that begins at or after done. */
  ghost predicate Cursor(r: Ranges, next: Option<int>, done: int) {
    && (next.Some? ==> next.value in r && next.value >= done && forall a :: a in r && a >= done ==> a >= next.value)
    && (next.None? ==> forall a :: a in r ==> a < done)
  }

  ghost function Left(r: Ranges, end: int, next: Option<int>): nat {
    if next.Some? && next.value < end then end - next.value else 0
  }

  /** After the interval at the cursor comes the next one, and less is left. */
  lemma CursorStep(r: Ranges, lo: int, hi: int, next: Option<int>, done: int)
    requires WellFormed(r, lo, hi) && Cursor(r, next, done) && next.Some?
    ensures var a := next.value;
            Cursor(r, After(r, a), a + 1) && Left(r, hi, After(r, a)) < Left(r, hi, next)
  {
  }

  /** The interval at a is all that comes to lie before a + 1. */
  lemma BeforeStep(r: Ranges, done: int, a: int, x: int)
    requires a in r && a >= done && forall c :: c in r && c >= done ==> c >= a
    ensures InBefore(r, a + 1, x) <==> InBefore(r, done, x) || a <= x < r[a]
  {
    if InBefore(r, a + 1, x) {
      var c :| c in r && c < a + 1 && c <= x < r[c];
      assert c == a || c < done;
    }
    if InBefore(r, done, x) {
      var c :| c in r && c < done && c <= x < r[c];
      assert c < a + 1;
    }
  }

  /** The intervals of r end before last, or there is nothing yet. */
  ghost predicate EndsBelow(r: Ranges, lo: int, last: int) {
    forall c :: c in r ==> r[c] < last || (r[c] == last == lo)
  }

  /** The intervals end by last or begin at next or later. */
  ghost predicate Ahead(ranges: Ranges, last: int, next: Option<int>) {
    && (next.Some? ==> next.value in ranges && next.value >= last)
    && (forall c :: c in ranges ==> ranges[c] <= last || (next.Some? && c >= next.value))
  }

  /** r holds what lies between lo and last outside of the intervals. */
  ghost predicate Gaps(ranges: Ranges, lo: int, r: Ranges, last: int) {
    forall x :: In(r, x) <==> lo <= x < last && !In(ranges, x)
  }

  /** r is the complement of ranges up to last, where the next interval has not begun. */
  ghost predicate Complemented(ranges: Ranges, lo: int, hi: int, r: Ranges, last: int, next: Option<int>) {
    && lo <= last <= hi && WellFormed(r, lo, hi)
    && EndsBelow(r, lo, last) && Ahead(ranges, last, next) && Gaps(ranges, lo, r, last)
  }

  lemma GapThenInterval(ranges: Ranges, lo: int, hi: int, r: Ranges, last: int, next: Option<int>)
    requires WellFormed(ranges, lo, hi) && Complemented(ranges, lo, hi, r, last, next) && next.Some?
    ensures var a := next.value;
            var r' := if a != last then r[last := a] else r;
            Complemented(ranges, lo, hi, r', ranges[a], After(ranges, a))
            && Left(ranges, hi, After(ranges, a)) < Left(ranges, hi, next)
  {
    var a := next.value;
    GapIn(ranges, lo, hi, r, last, a);
    GapShape(ranges, lo, hi, r, last, a);
    PastInterval(ranges, lo, hi, last, a);
  }

  /** The gap keeps the form of the complement. */
  lemma GapShape(ranges: Ranges, lo: int, hi: int, r: Ranges, last: int, a: int)
    requires WellFormed(ranges, lo, hi) && WellFormed(r, lo, hi) && a in ranges && lo <= last <= a
    requires EndsBelow(r, lo, last)
    ensures var r' := if a != last then r[last := a] else r;
            WellFormed(r', lo, hi) && EndsBelow(r', lo, ranges[a])
    ensures lo <= ranges[a] <= hi
  {
  }

  /** What comes after the interval at a lies beyond its end. */
  lemma PastInterval(ranges: Ranges, lo: int, hi: int, last: int, a: int)
    requires WellFormed(ranges, lo, hi) && a in ranges && Ahead(ranges, last, Some(a))
    ensures Ahead(ranges, ranges[a], After(ranges, a))
    ensures Left(ranges, hi, After(ranges, a)) < Left(ranges, hi, Some(a))
  {
  }

  /** Adding the gap [last, a) keeps the complement right up to the end of the interval at a. */
  lemma GapIn(ranges: Ranges, lo: int, hi: int, r: Ranges, last: int, a: int)
    requires WellFormed(ranges, lo, hi) && WellFormed(r, lo, hi) && a in ranges && lo <= last <= a
    requires EndsBelow(r, lo, last) && Ahead(ranges, last, Some(a)) && Gaps(ranges, lo, r, last)
    ensures Gaps(ranges, lo, if a != last then r[last := a] else r, ranges[a])
  {
    var r' := if a != last then r[last := a] else r;
    forall x ensures In(r', x) <==> lo <= x < ranges[a] && !In(ranges, x) {
      GapAt(ranges, lo, hi, r, last, a, x);
    }
  }

  lemma GapAt(ranges: Ranges, lo: int, hi: int, r: Ranges, last: int, a: int, x: int)
    requires WellFormed(ranges, lo, hi) && WellFormed(r, lo, hi) && a in ranges && lo <= last <= a
    requires EndsBelow(r, lo, last) && Ahead(ranges, last, Some(a))
    requires In(r, x) <==> lo <= x < last && !In(ranges, x)
    ensures In(if a != last then r[last := a] else r, x) <==> lo <= x < ranges[a] && !In(ranges, x)
  {
    var r' := if a != last then r[last := a] else r;
    if last <= x < a { Inside(r', last, x); NothingHere(ranges, lo, hi, last, a, x); }
    Inside(ranges, a, x);
    if In(r, x) {
      var c :| c in r && c <= x < r[c];
      Inside(r', c, x);
    }
  }

  lemma NothingHere(ranges: Ranges, lo: int, hi: int, last: int, a: int, x: int)
    requires WellFormed(ranges, lo, hi) && last <= x < a
    requires forall c :: c in ranges ==> ranges[c] <= last || c >= a
    ensures !In(ranges, x)
  {
  }

  lemma LastGap(ranges: Ranges, lo: int, hi: int, r: Ranges, last: int)
    requires WellFormed(ranges, lo, hi) && Complemented(ranges, lo, hi, r, last, None)
    ensures var r' := if last != hi then r[last := hi] else r;
            WellFormed(r', lo, hi) && forall x :: In(r', x) <==> lo <= x < hi && !In(ranges, x)
  {
    var r' := if last != hi then r[last := hi] else r;
    forall x ensures In(r', x) <==> lo <= x < hi && !In(ranges, x) {
      if last <= x < hi { Inside(r', last, x); NothingHere(ranges, lo, hi, last, hi, x); }
      if In(r, x) {
        var c :| c in r && c <= x < r[c];
        Inside(r', c, x);
      }
    }
  }

  lemma NoneBetween(r: Ranges, lo: int, hi: int, u: int, x: int)
    requires WellFormed(r, lo, hi) && u <= x
    requires AtOrBefore(r, u).Some? ==> r[AtOrBefore(r, u).value] <= u
    requires After(r, u).Some? ==> x < After(r, u).value
    ensures !In(r, x)
  {
  }

  /** The numbers from a to b, b excluded. */
  ghost function Interval(a: int, b: int): (s: set<int>)
    ensures forall x :: x in s <==> a <= x < b
    ensures |s| == if a < b then b - a else 0
    decreases if a < b then b - a else 0
  {
    if a < b then Interval(a, b - 1) + {b - 1} else {}
  }

  /** The members in intervals that begin before limit. */
  ghost function Below(r: Ranges, lo: int, hi: int, limit: int): (s: set<int>)
    requires WellFormed(r, lo, hi)
    ensures forall x :: x in s <==> InBefore(r, limit, x)
  {
    set x | x in Interval(lo, hi) && InBefore(r, limit, x)
  }

  lemma BelowStep(r: Ranges, lo: int, hi: int, done: int, a: int)
    requires WellFormed(r, lo, hi) && a in r && a >= done && forall c :: c in r && c >= done ==> c >= a
    ensures |Below(r, lo, hi, a + 1)| == |Below(r, lo, hi, done)| + (r[a] - a)
  {
    var s, i, t := Below(r, lo, hi, done), Interval(a, r[a]), Below(r, lo, hi, a + 1);
    forall x ensures x in t <==> x in s || x in i { BeforeStep(r, done, a, x); }
    assert t == s + i;
    forall x | x in i ensures x !in s { NotBefore(r, lo, hi, done, a, x); }
    assert s !! i;
  }

  lemma NotBefore(r: Ranges, lo: int, hi: int, done: int, a: int, x: int)
    requires WellFormed(r, lo, hi) && a in r && a >= done && a <= x
    ensures !InBefore(r, done, x)
  {
  }

  lemma AllBelow(r: Ranges, lo: int, hi: int, done: int)
    requires WellFormed(r, lo, hi) && forall a :: a in r ==> a < done
    ensures Below(r, lo, hi, done) == set x | lo <= x < hi && In(r, x)
  {
    forall x ensures InBefore(r, done, x) <==> In(r, x) && lo <= x < hi { }
  }

  /** A mask that holds its whole non-empty ground range is one interval. */
  lemma CoversAll(r: Ranges, lo: int, hi: int)
    requires WellFormed(r, lo, hi) && lo < hi && forall x :: lo <= x < hi ==> In(r, x)
    ensures r == map[lo := hi]
  {
    var one := map[lo := hi];
    forall x ensures In(one, x) <==> In(r, x) { Inside(one, lo, x); }
    RangesUnique(r, one, lo, hi);
  }

  /** Two masks over one ground range are complements: each element is a member of exactly one. */
  ghost predicate Complements(r: Ranges, s: Ranges, lo: int, hi: int) {
    forall x :: In(s, x) <==> lo <= x < hi && !In(r, x)
  }

  /** Complement is an involution: the complement of the complement is the mask, interval by interval. */
  lemma ComplementTwice(r: Ranges, s: Ranges, t: Ranges, lo: int, hi: int)
    requires WellFormed(r, lo, hi) && WellFormed(s, lo, hi) && WellFormed(t, lo, hi)
    requires Complements(r, s, lo, hi) && Complements(s, t, lo, hi)
    ensures t == r && Complements(s, r, lo, hi)
  {
    forall x ensures In(t, x) <==> In(r, x) {
      if In(r, x) { var a :| a in r && a <= x < r[a]; }
    }
    RangesUnique(t, r, lo, hi);
  }

  /** Complementing in place twice passes through the complement and gives back the very same intervals. */
  method InvertTwice(m: RangeMask) returns (middle: Ranges)
    requires m.Valid()
    modifies m
    ensures m.begin == old(m.begin) && m.end == old(m.end)
    ensures WellFormed(middle, m.begin, m.end) && Complements(old(m.ranges), middle, m.begin, m.end)
    ensures m.Valid() && m.ranges == old(m.ranges)
  {
    ghost var first := m.ranges;
    m.Invert();
    middle := m.ranges;
    m.Invert();
    ComplementTwice(first, middle, m.ranges, m.begin, m.end);
  }
}
