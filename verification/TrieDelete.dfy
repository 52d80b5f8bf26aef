/**
 * Removal from the abstract trie, following GenericTrieDB::deleteAt with its graft and merge
 * rewrites and the places where it takes a value for a hash; the proof that a completed removal is
 * map deletion and keeps canonical form.
 */
module TrieDelete {
  import opened Nibbles
  import opened Trie
  import opened TrieInsert

  /** The ways deleteAt can end without an answer. */
  datatype Fault =
    | BadCast   // throws: a branch value of more than 32 bytes is converted to a hash
    | LeafCast  // throws: a leaf value of more than 32 bytes is converted to a hash
    | BadRlp    // throws: a leaf value is looked up as a hash and nothing is found
    | PastEnd   // undefined: the first nibble of an exhausted key is read
    | Endless   // never ends: stored values name each other in a circle

  /** What comes of looking for a key in the node that a leaf's value happens to name. */
  datatype Verdict =
    | Missing           // not there: no change
    | Hit               // found: deleteAt goes on to edit that node
    | Broken(why: Fault)

  /**
   * What deleteAt learns from the node store. It takes the values of leaves and branches for
   * hashes: follow(v, k) looks for k below the node that v names, and named(v, leaf) is the
   * two-item node that v names once the reference to the leaf has been dropped.
   */
  datatype Env = Env(follow: (Bytes, Key) -> Verdict, named: (Bytes, Tree) -> Option<Tree>)

  datatype Outcome =
    | NotFound
    | Removed(t: Tree)
    | Misgrafted(t: Tree)  // the node that a branch value named was put in the branch's place
    | Astray               // the edit went on inside a node that a leaf value named
    | Failed(why: Fault)

  /** Slot i is the only one in use. */
  ghost predicate Sole(kids: seq<Tree>, val: Bytes, i: int)
    requires |kids| == 16
  {
    0 <= i <= 16 && Used(kids, val, i) && forall j :: 0 <= j <= 16 && j != i ==> !Used(kids, val, j)
  }

  /** The only slot in use, or 255 when there is none or more than one. */
  ghost function UniqueInUse(kids: seq<Tree>, val: Bytes): (r: int)
    requires |kids| == 16
    ensures r == 255 || Sole(kids, val, r)
    ensures r == 255 ==> forall i :: !Sole(kids, val, i)
  {
    if i :| Sole(kids, val, i) then i else 255
  }

  /** The key pre put in front of a node: a two-item node absorbs it, a branch gets an extension. */
  function Join(pre: Key, c: Tree): Tree {
    match c
    case Leaf(key, val) => Leaf(pre + key, val)
    case Ext(key, child) => Ext(pre + key, child)
    case _ => Ext(pre, c)
  }

  /** A branch that has just lost the child `gone`, or its value, brought back to canonical form. */
  ghost function Rejig(e: Env, kids: seq<Tree>, val: Bytes, gone: Tree): (o: Outcome)
    requires |kids| == 16
    ensures o.Removed? && (forall i :: 0 <= i < 16 ==> Shaped(kids[i])) ==> Shaped(o.t)
  {
    var used := UniqueInUse(kids, val);
    if used == 255 then Removed(Branch(kids, val))
    else if used < 16 then Removed(Join([used], kids[used]))
    else if |val| > 32 then Failed(BadCast)
    else
      match e.named(val, gone)
      case Some(c) => Misgrafted(c)
      case None => Removed(Leaf([], val))
  }

  /** What deleteAt does with the key k. */
  ghost function Delete(e: Env, t: Tree, k: Key): (o: Outcome)
    requires Shaped(t)
    ensures o.Removed? ==> Shaped(o.t)
  {
    match t
    case Nil => NotFound
    case Leaf(key, val) =>
      if key == k then Removed(Nil)
      else if key <= k then
        match e.follow(val, k[|key|..])
        case Missing => NotFound
        case Hit => Astray
        case Broken(why) => Failed(why)
      else NotFound
    case Ext(key, child) =>
      if key <= k then
        match Delete(e, child, k[|key|..])
        case Removed(c) => Removed(Join(key, c))
        case Misgrafted(c) => Misgrafted(Join(key, c))
        case o => o
      else NotFound
    case Branch(kids, val) =>
      if k == [] then
        if val == [] then Failed(PastEnd) else Rejig(e, kids, [], Nil)
      else
        match Delete(e, kids[k[0]], k[1..])
        case Removed(c) => Rejig(e, kids[k[0] := c], val, kids[k[0]])
        case Misgrafted(c) => Misgrafted(Branch(kids[k[0] := c], val))
        case o => o
  }

  // ----- a completed removal is map deletion

  lemma JoinGet(pre: Key, c: Tree, q: Key)
    ensures Get(Join(pre, c), q) == Get(Ext(pre, c), q)
  {
    if TwoItem(c) {
      assert pre + c.key <= q <==> pre <= q && c.key <= q[|pre|..] by {
        if pre <= q { assert q == pre + q[|pre|..]; }
        if pre + c.key <= q { assert q[..|pre|] == (pre + c.key)[..|pre|] == pre; }
      }
      if pre <= q && c.key <= q[|pre|..] {
        assert q[|pre|..][|c.key|..] == q[|pre + c.key|..];
      }
    }
  }

  lemma RejigGet(e: Env, kids: seq<Tree>, val: Bytes, gone: Tree, q: Key)
    requires |kids| == 16 && Rejig(e, kids, val, gone).Removed?
    ensures Get(Rejig(e, kids, val, gone).t, q) == Get(Branch(kids, val), q)
  {
    var used := UniqueInUse(kids, val);
    if used < 16 {
      JoinGet([used], kids[used], q);
      assert !Used(kids, val, 16);
      assert q != [] && q[0] != used ==> !Used(kids, val, q[0]);
    } else if used == 16 {
      assert q != [] ==> !Used(kids, val, q[0]);
    }
  }

  lemma {:induction false} DeleteGet(e: Env, t: Tree, k: Key, q: Key)
    requires Canonical(t) && Shaped(t)
    ensures Delete(e, t, k).NotFound? ==> Get(t, k) == []
    ensures Delete(e, t, k).Removed? ==> Get(t, k) != []
    ensures Delete(e, t, k).Removed? ==> Get(Delete(e, t, k).t, q) == if q == k then [] else Get(t, q)
  {
    match t
    case Nil =>
    case Leaf(key, _) =>
    case Ext(key, child) =>
      if key <= k {
        var k' := k[|key|..];
        var q' := if key <= q then q[|key|..] else [];
        DeleteGet(e, child, k', q');
        if Delete(e, child, k').Removed? { JoinGet(key, Delete(e, child, k').t, q); }
        assert k == key + k' && (key <= q ==> q == key + q');
      }
    case Branch(kids, val) =>
      if k == [] {
        if val != [] && Delete(e, t, k).Removed? { RejigGet(e, kids, [], Nil, q); }
      } else {
        var q' := if q == [] then [] else q[1..];
        DeleteGet(e, kids[k[0]], k[1..], q');
        assert k == [k[0]] + k[1..] && (q != [] ==> q == [q[0]] + q');
        if Delete(e, t, k).Removed? {
          RejigGet(e, kids[k[0] := Delete(e, kids[k[0]], k[1..]).t], val, kids[k[0]], q);
        }
      }
  }

  // ----- a completed removal keeps canonical form

  lemma JoinCanonical(pre: Key, c: Tree)
    requires Canonical(c) && !c.Nil? && pre != []
    ensures Canonical(Join(pre, c)) && !Join(pre, c).Nil?
  {
  }

  lemma RejigCanonical(e: Env, kids: seq<Tree>, val: Bytes, gone: Tree, i: int)
    requires |kids| == 16 && 0 <= i <= 16 && Used(kids, val, i)
    requires forall j :: 0 <= j < 16 ==> Canonical(kids[j])
    requires Rejig(e, kids, val, gone).Removed?
    ensures Canonical(Rejig(e, kids, val, gone).t) && !Rejig(e, kids, val, gone).t.Nil?
  {
    var used := UniqueInUse(kids, val);
    if used == 255 {
      assert !Sole(kids, val, i);
      var j :| 0 <= j <= 16 && j != i && Used(kids, val, j);
      assert TwoUsed(kids, val) by {
        if i < j {
          assert Used(kids, val, i) && Used(kids, val, j);
        } else {
          assert Used(kids, val, j) && Used(kids, val, i);
        }
      }
    } else if used < 16 {
      JoinCanonical([used], kids[used]);
    }
  }

  lemma {:induction false} DeleteCanonical(e: Env, t: Tree, k: Key)
    requires Canonical(t) && Shaped(t) && Delete(e, t, k).Removed?
    ensures Canonical(Delete(e, t, k).t)
    ensures Delete(e, t, k).t.Nil? ==> t.Leaf? && t.key == k
  {
    match t
    case Leaf(_, _) =>
    case Ext(key, child) =>
      DeleteCanonical(e, child, k[|key|..]);
      JoinCanonical(key, Delete(e, child, k[|key|..]).t);
    case Branch(kids, val) =>
      var i, j :| 0 <= i < j <= 16 && Used(kids, val, i) && Used(kids, val, j);
      if k == [] {
        assert Used(kids, [], i);
        RejigCanonical(e, kids, [], Nil, i);
      } else {
        DeleteCanonical(e, kids[k[0]], k[1..]);
        var kids' := kids[k[0] := Delete(e, kids[k[0]], k[1..]).t];
        var other := if i == k[0] then j else i;
        assert Used(kids', val, other);
        RejigCanonical(e, kids', val, kids[k[0]], other);
      }
  }
}
