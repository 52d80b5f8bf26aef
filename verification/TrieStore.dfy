/**
 * GenericTrieDB: a trie edited in place over the reference-counted node store.
 *
 * Each editing method is given the abstract tree its node stands for, as a ghost argument, and is
 * proved to return the stored form of the specified tree while moving, for every hash, exactly the
 * references the edit drops and adds.
 */
module TrieStore {
  import opened Nibbles
  import opened Trie
  import opened TrieInsert
  import opened TrieDelete
  import opened TrieBlocked
  import opened TrieNode
  import opened OverlayStore
  import opened TrieScope
  import opened TrieProbe

  lemma SealSlot<H>(sha: Sha<H>, kids: seq<Tree>, val: Bytes, n: nat, c: Tree)
    requires n < |kids|
    ensures Seal(sha, Branch(kids[n := c], val)) ==
            BranchNode(Seal(sha, Branch(kids, val)).refs[n := RefOf(sha, c)], val)
  {
    assert Seal(sha, Branch(kids[n := c], val)).refs == Seal(sha, Branch(kids, val)).refs[n := RefOf(sha, c)];
  }

  /** The one-slot branch made from a canonical two-item node is not itself canonical. */
  lemma BranchOfShape(t: Tree)
    requires Canonical(t) && Shaped(t) && TwoItem(t)
    ensures CanonicalBelow(BranchOf(t)) && !Canonical(BranchOf(t)) && Shaped(BranchOf(t))
  {
    var b := BranchOf(t);
    var only := if t.key == [] then 16 else t.key[0];
    assert forall i :: 0 <= i <= 16 && Used(b.kids, b.val, i) ==> i == only;
    assert !TwoUsed(b.kids, b.val);
  }

  lemma BranchOfOcc<H>(sha: Sha<H>, t: Tree, h: H)
    requires TwoItem(t) && (t.Ext? ==> t.key != [])
    ensures Occ(sha, BranchOf(t), h) == Occ(sha, t, h) +
              if t.key == [] || (t.Ext? && |t.key| == 1) then 0 else OccSelf(sha, DropKey(t, 1), h)
  {
    OccKidsSole(sha, BranchOf(t).kids, if t.key == [] then 16 else t.key[0], h);
  }

  lemma CleveOcc<H>(sha: Sha<H>, t: Tree, s: nat, h: H)
    requires TwoItem(t) && 0 < s <= |t.key|
    ensures Occ(sha, Cleve(t, s), h) == Occ(sha, t, h) + OccSelf(sha, DropKey(t, s), h)
  {
    assert Occ(sha, Cleve(t, s), h) == OccRef(sha, DropKey(t, s), h);
    assert Occ(sha, DropKey(t, s), h) == Occ(sha, t, h);
  }

  lemma BranchOfSeal<H>(sha: Sha<H>, t: Tree)
    requires TwoItem(t) && (t.Ext? ==> t.key != [])
    ensures t.key == [] ==> Seal(sha, BranchOf(t)) == BranchNode(seq(16, _ => Empty), t.val)
    ensures t.key != [] ==>
              Seal(sha, BranchOf(t))
              == BranchNode(seq(16, _ => Empty)[t.key[0] := RefOf(sha, BranchOf(t).kids[t.key[0]])], [])
  {
    var none := seq<Ref<H>>(16, _ => Empty);
    if t.key == [] {
      assert Seal(sha, BranchOf(t)).refs == none;
    } else {
      assert Seal(sha, BranchOf(t)).refs == none[t.key[0] := RefOf(sha, BranchOf(t).kids[t.key[0]])];
    }
  }

  /** The same nodes, whatever the counts. */
  ghost predicate SameEntries<H(!new)>(a: Table<H>, b: Table<H>) {
    a.Keys == b.Keys && forall h :: h in a ==> a[h].0 == b[h].0
  }

  /**
   * What an editing step reports: nothing to do, a replacement, a fault, or that it has begun to
   * edit a node which a value named.
   */
  datatype Step<T> = Absent | Changed(value: T) | Threw(why: Fault) | Strayed

  /** A step without a replacement, reported one level up. */
  function Unchanged<S, T>(s: Step<S>): Step<T>
    requires !s.Changed?
  {
    match s
    case Absent => Absent
    case Strayed => Strayed
    case Threw(why) => Threw(why)
  }

  /** The step that an outcome calls for. */
  ghost predicate Reports<T>(d: Outcome, o: Step<T>) {
    match d
    case NotFound => o.Absent?
    case Removed(_) => o.Changed?
    case Misgrafted(_) => o.Strayed?
    case Astray => o.Strayed?
    case Failed(why) => o == Threw(why)
  }

  /**
   * The references already dropped when the conversion of a branch value throws: those to the removed
   * leaf and to the branch.
   */
  ghost function Lost<H>(sha: Sha<H>, e: Env, t: Tree, k: Key, h: H): nat
    requires Shaped(t)
  {
    match t
    case Nil => 0
    case Leaf(_, _) => 0
    case Ext(key, child) => if key <= k then Lost(sha, e, child, k[|key|..], h) else 0
    case Branch(kids, _) =>
      if k == [] then 0
      else if Delete(e, kids[k[0]], k[1..]).Removed? then OccSelf(sha, kids[k[0]], h) + OccSelf(sha, t, h)
      else Lost(sha, e, kids[k[0]], k[1..], h)
  }

  /** One reference to a node of the tree's hash has been dropped, where there was one. */
  ghost predicate Dropped<H(!new)>(sha: Sha<H>, t: Tree, before: Table<H>, after: Table<H>) {
    SameEntries(before, after) &&
    forall h :: CountIn(after, h) == CountIn(before, h) - if CountIn(before, h) > 0 then OccSelf(sha, t, h) else 0
  }

  /** A branch with one child, a leaf, refers to that leaf only. */
  lemma HeirOcc<H>(sha: Sha<H>, kids: seq<Tree>, n: nat, h: H)
    requires n < |kids| && kids[n].Leaf? && forall j :: 0 <= j < |kids| && j != n ==> kids[j].Nil?
    ensures OccKids(sha, kids, h) == OccSelf(sha, kids[n], h) && OccKids(sha, kids[n := Nil], h) == 0
  {
    OccKidsSole(sha, kids, n, h);
    OccKidsSole(sha, kids[n := Nil], n, h);
  }

  /** All that a branch with one child, a leaf, refers to is lost when the conversion of its value throws. */
  lemma LostAtBranch<H>(sha: Sha<H>, e: Env, t: Tree, k: Key, h: H)
    requires Canonical(t) && Shaped(t) && t.Branch? && k != [] && Heir(t, k, [])
    ensures Delete(e, t.kids[k[0]], k[1..]) == Removed(Nil)
    ensures Lost(sha, e, t, k, h) == OccRef(sha, t, h) && OccKids(sha, t.kids[k[0] := Nil], h) == 0
  {
    BranchHeir(e, t.kids, t.val, k);
    HeirOcc(sha, t.kids, k[0], h);
  }

  /** A leaf and the branch above it, dropped one after the other, where both are counted. */
  lemma DroppedBoth<H(!new)>(sha: Sha<H>, leaf: Tree, branch: Tree, a: Table<H>, b: Table<H>, c: Table<H>,
                             disk: map<H, Node<H>>)
    requires Dropped(sha, leaf, a, b) && Dropped(sha, branch, b, c)
    requires forall h :: h !in disk ==> CountIn(a, h) >= OccSelf(sha, leaf, h) + OccSelf(sha, branch, h)
    ensures SameEntries(a, c)
    ensures forall h :: h !in disk ==> CountIn(c, h) + OccSelf(sha, leaf, h) + OccSelf(sha, branch, h) == CountIn(a, h)
  {
  }

  /** The node found under h is a two-item node. */
  ghost predicate NamesTwoItem<H>(main: Table<H>, disk: map<H, Node<H>>, enforceRefs: bool, h: H) {
    LookIn(main, disk, enforceRefs, h).Some? && IsTwoItem(LookIn(main, disk, enforceRefs, h).value)
  }

  /** Two nodes of the store under one hash are one node. */
  lemma OneNode<H(!new)>(sha: Sha<H>, sc: Scope, m: Node<H>, n: Node<H>)
    requires NoCollision(sha, sc) && IsNode(sha, sc, m) && IsNode(sha, sc, n) && sha(m) == sha(n)
    ensures m == n
  {
    var a, b := TreeOf(sha, sc, m), TreeOf(sha, sc, n);
    CanonicalIsBelow(a);
    CanonicalIsBelow(b);
    HashInjective(sha, sc, a, b);
  }

  /** The node under h is a two-item node, and dropping the leaf does not hide it. */
  ghost predicate NamesAfter<H>(sha: Sha<H>, main: Table<H>, disk: map<H, Node<H>>, enforceRefs: bool, h: H,
                                leaf: Tree) {
    var n := LookIn(main, disk, enforceRefs, h);
    n.Some? && IsTwoItem(n.value)
    && !(enforceRefs && h !in disk && CountIn(main, h) == 1 && OccSelf(sha, leaf, h) == 1)
  }

  /** The branch above the leaf is dropped too, but is no two-item node. */
  lemma StillNamed<H(!new)>(sha: Sha<H>, before: Table<H>, after: Table<H>, disk: map<H, Node<H>>, enforceRefs: bool,
                            h: H, leaf: Tree, branch: Tree)
    requires h in before ==> h in after && after[h].0 == before[h].0
    requires h !in before ==> h !in after
    requires h in before && h in disk ==> before[h].0 == disk[h]
    requires h in before && Hash(sha, branch) == h ==> before[h].0.BranchNode?
    requires h !in disk ==> CountIn(after, h) + OccSelf(sha, leaf, h) + OccSelf(sha, branch, h) == CountIn(before, h)
    ensures NamesTwoItem(after, disk, enforceRefs, h) <==> NamesAfter(sha, before, disk, enforceRefs, h, leaf)
  {
  }

  class GenericTrieDB<H(==, !new)> {
    const sha: Sha<H>
    const asHash: AsHash<H>
    const db: OverlayDB<H>
    ghost const scope: Scope
    var root: H
    ghost var tree: Tree

    /** A trie opened on an existing store and initialised to be empty. */
    constructor (sha: Sha<H>, asHash: AsHash<H>, db: OverlayDB<H>, ghost scope: Scope)
      requires db.sha == sha && Strict(asHash) && NoCollision(sha, scope) && db.Valid()
      requires forall h :: h in db.main ==> IsNode(sha, scope, db.main[h].0)
      requires forall h :: h in db.disk ==> IsNode(sha, scope, db.disk[h])
      modifies db`main, db`held
      ensures Valid() && this.db == db && this.sha == sha && this.asHash == asHash && this.scope == scope && tree == Nil
      ensures forall h :: db.Total(h) == old(db.Total(h)) + OccRoot(sha, Nil, h)
    {
      this.sha, this.asHash, this.db, this.scope, tree := sha, asHash, db, scope, Nil;
      root := sha(NullNode);
      new;
      assert root == Hash(sha, Nil) && Canonical(Nil) && Within(scope, Nil);
      assert IsNode(sha, scope, NullNode) by { assert NullNode == Seal(sha, Nil); }
      db.Insert(root, NullNode);
    }

    /** The root is the hash of a canonical tree, all of whose nodes the store can produce. */
    ghost predicate Valid()
      reads this, db
    {
      && StoreOk() && Canonical(tree) && Shaped(tree) && Within(scope, tree) && root == Hash(sha, tree)
      && forall h :: db.Total(h) >= OccRoot(sha, tree, h)
    }

    /** Every count is the number of occurrences in this trie: no other trie shares the store. */
    ghost predicate Exact()
      reads this, db
    {
      forall h :: db.Total(h) == OccRoot(sha, tree, h)
    }

    /** The store holds canonical nodes of the scope only. */
    ghost predicate NodesOnly()
      reads db
    {
      && (forall h {:trigger IsNode(sha, scope, db.main[h].0)} :: h in db.main ==> IsNode(sha, scope, db.main[h].0))
      && (forall h {:trigger IsNode(sha, scope, db.disk[h])} :: h in db.disk ==> IsNode(sha, scope, db.disk[h]))
    }

    ghost predicate StoreOk()
      reads db
    {
      db.sha == sha && Strict(asHash) && NoCollision(sha, scope) && db.Valid() && NodesOnly()
    }

    /** What deleteAt learns from the store. */
    ghost function Here(): Env
      reads db
    {
      MakeEnv(sha, scope, db.Found(), db.Fleeting(), asHash)
    }

    /** Every reference of the tree that is not on disk is counted. */
    ghost predicate Covers(t: Tree, self: bool)
      reads db
    {
      forall h :: db.Total(h) >= Occ(sha, t, h) + if self then OccSelf(sha, t, h) else 0
    }

    // ----- access to the store

    method Node(h: H, ghost c: Tree) returns (n: Node<H>)
      requires StoreOk() && h == Hash(sha, c) && Canonical(c) && Within(scope, c)
      requires db.Total(h) > 0
      ensures n == Seal(sha, c)
    {
      var o := db.Lookup(h);
      n := o.value;
      NodeOf(n, c);
    }

    /** What is found under the hash of a tree is the node of that tree. */
    lemma NodeOf(n: Node<H>, c: Tree)
      requires StoreOk() && IsNode(sha, scope, n) && sha(n) == Hash(sha, c) && InScope(scope, c)
      ensures n == Seal(sha, c) && Canonical(c)
    {
      var d := TreeOf(sha, scope, n);
      CanonicalIsBelow(d);
      HashInjective(sha, scope, d, c);
    }

    method KillNode(n: Node<H>, ghost t: Tree)
      requires StoreOk() && n == Seal(sha, t)
      modifies db`main, db`held
      ensures StoreOk() && Dropped(sha, t, old(db.main), db.main)
      ensures forall h :: db.Total(h) == old(db.Total(h)) - if old(db.Total(h)) > 0 then OccSelf(sha, t, h) else 0
    {
      if Size(n) >= 32 {
        var _ := db.Kill(sha(n));
      }
    }

    method StreamNode(n: Node<H>, ghost t: Tree) returns (r: Ref<H>)
      requires StoreOk() && n == Seal(sha, t) && Canonical(t) && Within(scope, t)
      modifies db`main, db`held
      ensures StoreOk() && r == RefOf(sha, t)
      ensures n.NullNode? ==> db.main == old(db.main)
      ensures forall h :: db.Total(h) == old(db.Total(h)) + OccSelf(sha, t, h)
    {
      if n.NullNode? {
        r := Empty;
      } else if Size(n) < 32 {
        r := Inline(n);
      } else {
        var h := sha(n);
        assert IsNode(sha, scope, n);
        db.Insert(h, n);
        r := Digest(h);
      }
    }

    // ----- insertion

    method MergeAt(n: Node<H>, k: Key, v: Bytes, inLine: bool, ghost t: Tree) returns (r: Node<H>)
      requires StoreOk() && n == Seal(sha, t) && v != []
      requires Shaped(t) && InScope(scope, t) && Tail(scope, k, v) && Covers(t, !inLine)
      requires Canonical(t) || (inLine && Direct(t, k))
      requires inLine && Size(n) >= 32 ==> !Canonical(t)
      modifies db`main, db`held
      ensures StoreOk() && r == Seal(sha, Inserted(t, k, v))
      ensures forall h ::
                db.Total(h) + Occ(sha, t, h) + (if inLine then 0 else OccSelf(sha, t, h))
                == old(db.Total(h)) + Occ(sha, Inserted(t, k, v), h)
      decreases |k|, if Direct(t, k) then 0 else 1
    {
      if n.NullNode? {
        r := LeafNode(k, v);
      } else if n.BranchNode? {
        if k == [] {
          KillOrig(n, inLine, t);
          r := BranchNode(n.refs, v);
        } else {
          r := MergeBelowBranch(n, k, v, inLine, t);
        }
      } else if n.LeafNode? && n.key == k {
        KillOrig(n, inLine, t);
        r := LeafNode(k, v);
      } else if n.ExtNode? && n.key <= k {
        r := MergeBelowExt(n, k, v, inLine, t);
      } else {
        var sh := Shared(k, n.key);
        if sh > 0 {
          var cleved := Cleve(n, sh, inLine, t);
          CleveStep(t, k, v);
          WithinCleve(scope, t, sh);
          r := MergeAt(cleved, k, v, true, TrieInsert.Cleve(t, sh));
        } else {
          var branched := Branch(n, inLine, t);
          BranchStep(t, k, v);
          WithinBranchOf(scope, t);
          r := MergeAt(branched, k, v, true, BranchOf(t));
        }
      }
    }

    method MergeBelowBranch(n: Node<H>, k: Key, v: Bytes, inLine: bool, ghost t: Tree) returns (r: Node<H>)
      requires StoreOk() && n == Seal(sha, t) && v != []
      requires Shaped(t) && InScope(scope, t) && Tail(scope, k, v) && Covers(t, !inLine)
      requires t.Branch? && k != []
      modifies db`main, db`held
      ensures StoreOk() && r == Seal(sha, Inserted(t, k, v))
      ensures forall h ::
                db.Total(h) + Occ(sha, t, h) + (if inLine then 0 else OccSelf(sha, t, h))
                == old(db.Total(h)) + Occ(sha, Inserted(t, k, v), h)
      decreases |k|, 0, 0
    {
      if !inLine { KillNode(n, t); }
      forall h ensures OccRef(sha, t.kids[k[0]], h) <= Occ(sha, t, h) { OccKidsAt(sha, t.kids, k[0], h); }
      WithinSlot(scope, t.kids, t.val, k[0]);
      TailAfter(scope, k, 1, v);
      var ref := MergeAtAux(n.refs[k[0]], k[1..], v, t.kids[k[0]]);
      r := BranchNode(n.refs[k[0] := ref], n.val);
      ghost var c := Inserted(t.kids[k[0]], k[1..], v);
      SealSlot(sha, t.kids, t.val, k[0], c);
      forall h { OccKidsUpdate(sha, t.kids, k[0], c, h); }
    }

    method MergeBelowExt(n: Node<H>, k: Key, v: Bytes, inLine: bool, ghost t: Tree) returns (r: Node<H>)
      requires StoreOk() && n == Seal(sha, t) && v != []
      requires Shaped(t) && InScope(scope, t) && Tail(scope, k, v) && Covers(t, !inLine)
      requires t.Ext? && t.key <= k
      modifies db`main, db`held
      ensures StoreOk() && r == Seal(sha, Inserted(t, k, v))
      ensures forall h ::
                db.Total(h) + Occ(sha, t, h) + (if inLine then 0 else OccSelf(sha, t, h))
                == old(db.Total(h)) + Occ(sha, Inserted(t, k, v), h)
      decreases |k|, 0, 0
    {
      if !inLine { KillNode(n, t); }
      assert forall h :: OccRef(sha, t.child, h) == Occ(sha, t, h);
      WithinExt(scope, t.key, t.child);
      TailAfter(scope, k, |n.key|, v);
      var ref := MergeAtAux(n.ref, k[|n.key|..], v, t.child);
      r := ExtNode(n.key, ref);
    }

    method MergeAtAux(orig: Ref<H>, k: Key, v: Bytes, ghost c: Tree) returns (r: Ref<H>)
      requires StoreOk() && orig == RefOf(sha, c) && v != []
      requires Shaped(c) && Canonical(c) && Within(scope, c) && Tail(scope, k, v) && Covers(c, true)
      modifies db`main, db`held
      ensures StoreOk() && r == RefOf(sha, Inserted(c, k, v))
      ensures forall h ::
                db.Total(h) + OccRef(sha, c, h) == old(db.Total(h)) + OccRef(sha, Inserted(c, k, v), h)
      decreases |k|, 2
    {
      var n, isRemovable := NullNode, false;
      match orig {
        case Empty =>
        case Inline(m) => n := m;
        case Digest(h) =>
          assert OccSelf(sha, c, h) == 1;
          n := Node(h, c);
          isRemovable := true;
      }
      CanonicalIsBelow(c);
      var b := MergeAt(n, k, v, !isRemovable, c);
      InsertCanonical(c, k, v);
      WithinInserted(scope, c, k, v);
      r := StreamNode(b, Inserted(c, k, v));
    }

    /** Drops our reference to a node that is about to be replaced; a node that was never stored has none. */
    method KillOrig(n: Node<H>, inLine: bool, ghost t: Tree)
      requires StoreOk() && n == Seal(sha, t) && InScope(scope, t)
      requires inLine && Size(n) >= 32 ==> !Canonical(t)
      requires !inLine ==> forall h :: db.Total(h) >= OccSelf(sha, t, h)
      modifies db`main, db`held
      ensures StoreOk()
      ensures forall h ::
                db.Total(h) + (if inLine then 0 else OccSelf(sha, t, h)) == old(db.Total(h))
    {
      if inLine && Size(n) >= 32 { NeverStored(t); }
      KillNode(n, t);
    }

    /** A node that is not canonical is not in the store. */
    lemma NeverStored(t: Tree)
      requires StoreOk() && InScope(scope, t) && !Canonical(t)
      ensures Hash(sha, t) !in db.main && Hash(sha, t) !in db.disk
    {
      var h := Hash(sha, t);
      if h in db.main { NodeOf(db.main[h].0, t); }
      if h in db.disk { NodeOf(db.disk[h], t); }
    }

    method Cleve(n: Node<H>, s: nat, inLine: bool, ghost t: Tree) returns (r: Node<H>)
      requires StoreOk() && n == Seal(sha, t) && Canonical(t) && Within(scope, t) && Shaped(t) && TwoItem(t)
      requires 0 < s <= |t.key| && (t.Ext? ==> s < |t.key|)
      requires inLine ==> Size(n) < 32
      requires Covers(t, !inLine)
      modifies db`main, db`held
      ensures StoreOk() && r == Seal(sha, TrieInsert.Cleve(t, s))
      ensures Canonical(DropKey(t, s))
      ensures forall h ::
                db.Total(h) + Occ(sha, t, h) + (if inLine then 0 else OccSelf(sha, t, h))
                == old(db.Total(h)) + Occ(sha, TrieInsert.Cleve(t, s), h)
    {
      forall h { CleveOcc(sha, t, s, h); }
      CanonicalIsBelow(t);
      WithinDropKey(scope, t, s);
      KillOrig(n, inLine, t);
      var bottom := if n.LeafNode? then LeafNode(n.key[s..], n.val) else ExtNode(n.key[s..], n.ref);
      var ref := StreamNode(bottom, DropKey(t, s));
      r := ExtNode(n.key[..s], ref);
    }

    method Branch(n: Node<H>, inLine: bool, ghost t: Tree) returns (r: Node<H>)
      requires StoreOk() && n == Seal(sha, t) && Canonical(t) && Within(scope, t) && Shaped(t) && TwoItem(t)
      requires inLine ==> Size(n) < 32
      requires Covers(t, !inLine)
      modifies db`main, db`held
      ensures StoreOk() && r == Seal(sha, BranchOf(t))
      ensures CanonicalBelow(BranchOf(t)) && !Canonical(BranchOf(t))
      ensures forall h ::
                db.Total(h) + Occ(sha, t, h) + (if inLine then 0 else OccSelf(sha, t, h))
                == old(db.Total(h)) + Occ(sha, BranchOf(t), h)
    {
      BranchOfShape(t);
      BranchOfSeal(sha, t);
      forall h { BranchOfOcc(sha, t, h); }
      CanonicalIsBelow(t);
      WithinBranchOf(scope, t);
      KillOrig(n, inLine, t);
      var none := seq(16, _ => Empty);
      if n.key == [] {
        r := BranchNode(none, n.val);
      } else {
        var b := n.key[0];
        var ref;
        ghost var rest := BranchOf(t).kids[b];
        WithinSlot(scope, BranchOf(t).kids, BranchOf(t).val, b);
        if n.LeafNode? {
          ref := StreamNode(LeafNode(n.key[1..], n.val), rest);
        } else if |n.key| > 1 {
          ref := StreamNode(ExtNode(n.key[1..], n.ref), rest);
        } else {
          ref := n.ref;
        }
        r := BranchNode(none[b := ref], []);
      }
    }

    // ----- lookup

    method AtAux(n: Node<H>, k: Key, ghost t: Tree) returns (v: Bytes)
      requires StoreOk() && n == Seal(sha, t) && Canonical(t) && Within(scope, t) && Covers(t, false)
      ensures v == Get(t, k)
      decreases t, 0
    {
      match n
      case NullNode => v := [];
      case LeafNode(key, val) => v := if k == key then val else [];
      case ExtNode(key, ref) =>
        if key <= k {
          assert forall h :: OccRef(sha, t.child, h) == Occ(sha, t, h);
          WithinExt(scope, key, t.child);
          v := AtRef(ref, k[|key|..], t.child);
        } else {
          v := [];
        }
      case BranchNode(refs, val) =>
        if k == [] {
          v := val;
        } else {
          forall h ensures OccRef(sha, t.kids[k[0]], h) <= Occ(sha, t, h) { OccKidsAt(sha, t.kids, k[0], h); }
          WithinSlot(scope, t.kids, t.val, k[0]);
          v := AtRef(refs[k[0]], k[1..], t.kids[k[0]]);
        }
    }

    method AtRef(r: Ref<H>, k: Key, ghost c: Tree) returns (v: Bytes)
      requires StoreOk() && r == RefOf(sha, c) && Canonical(c) && Within(scope, c) && Covers(c, true)
      ensures v == Get(c, k)
      decreases c, 1
    {
      if r.Empty? {
        v := [];
      } else {
        var n := Deref(r, c);
        v := AtAux(n, k, c);
      }
    }

    method Deref(r: Ref<H>, ghost c: Tree) returns (n: Node<H>)
      requires StoreOk() && r == RefOf(sha, c) && !c.Nil? && Canonical(c) && Within(scope, c) && Covers(c, true)
      ensures n == Seal(sha, c)
    {
      match r
      case Inline(m) => n := m;
      case Digest(h) =>
        assert OccSelf(sha, c, h) == 1;
        n := Node(h, c);
    }

    // ----- the search through values taken for hashes

    /**
     * The descent of deleteAt below a node that a value named: it only looks. The hashes seen tell
     * an endless descent from one that ends.
     */
    method SearchNode(n: Node<H>, k: Key, seen: set<H>) returns (v: Verdict)
      requires StoreOk()
      ensures v == Probe(db.Found(), asHash, n, k, seen)
      decreases |k|, |db.Found().Keys - seen|, Size(n), 0
    {
      match n
      case NullNode => v := Missing;
      case LeafNode(key, val) =>
        if key == k {
          v := Hit;
        } else if key <= k {
          var o := asHash(val);
          if o.None? {
            v := Broken(LeafCast);
          } else {
            v := SearchHash(o.value, k[|key|..], if key == [] then seen else {});
          }
        } else {
          v := Missing;
        }
      case ExtNode(key, ref) =>
        if key <= k {
          v := SearchRef(ref, k[|key|..], if key == [] then seen else {});
        } else {
          v := Missing;
        }
      case BranchNode(refs, val) =>
        if k == [] {
          v := if val == [] then Broken(PastEnd) else Hit;
        } else if k[0] < |refs| {
          RefSizeBound(refs, k[0]);
          v := SearchRef(refs[k[0]], k[1..], {});
        } else {
          v := Missing;
        }
    }

    method SearchRef(r: Ref<H>, k: Key, seen: set<H>) returns (v: Verdict)
      requires StoreOk()
      ensures v == ProbeRef(db.Found(), asHash, r, k, seen)
      decreases |k|, |db.Found().Keys - seen|, RefSize(r), 1
    {
      match r
      case Empty => v := Missing;
      case Inline(m) => v := SearchNode(m, k, seen);
      case Digest(h) => v := SearchHash(h, k, seen);
    }

    method SearchHash(h: H, k: Key, seen: set<H>) returns (v: Verdict)
      requires StoreOk()
      ensures v == TrieProbe.Follow(db.Found(), asHash, h, k, seen)
      decreases |k|, |db.Found().Keys - seen|, 0, 2
    {
      var o := db.Lookup(h);
      if o.None? {
        v := if k == [] then Hit else Broken(BadRlp);
      } else if h in seen {
        v := Broken(Endless);
      } else {
        Fewer(db.Found().Keys, seen, h);
        v := SearchNode(o.value, k, seen + {h});
      }
    }

    // ----- removal

    method DeleteAt(n: Node<H>, k: Key, ghost t: Tree, ghost e: Env) returns (o: Step<Node<H>>)
      requires StoreOk() && e == Here() && n == Seal(sha, t)
      requires Canonical(t) && Shaped(t) && Within(scope, t) && Covers(t, true)
      modifies db`main, db`held
      ensures Reports(Delete(e, t, k), o)
      ensures o.Changed? ==> o.value == Seal(sha, Delete(e, t, k).t)
      ensures !o.Strayed? ==> StoreOk()
      ensures o.Absent? || (o.Threw? && o.why != BadCast) ==> db.main == old(db.main) && db.held == old(db.held)
      ensures o == Threw(BadCast) ==> forall h ::
                db.Total(h) + Lost(sha, e, t, k, h) == old(db.Total(h))
      ensures o.Changed? ==> forall h ::
                db.Total(h) + OccRef(sha, t, h) == old(db.Total(h)) + Occ(sha, Delete(e, t, k).t, h)
      ensures o.Changed? && t.Leaf? ==> Dropped(sha, t, old(db.main), db.main)
      decreases t, 0
    {
      match n
      case NullNode => o := Absent;
      case LeafNode(key, val) =>
        if key == k {
          KillNode(n, t);
          o := Changed(NullNode);
        } else if key <= k {
          o := RunPast(val, k[|key|..]);
        } else {
          o := Absent;
        }
      case ExtNode(key, ref) => o := DeleteBelowExt(n, k, t, e);
      case BranchNode(refs, val) =>
        if k == [] {
          if val == [] {
            o := Threw(PastEnd);
          } else {
            BranchAtEnd(e, t.kids, val);
            forall i | 0 <= i < 16 ensures Within(scope, t.kids[i]) { WithinSlot(scope, t.kids, t.val, i); }
            KillNode(n, t);
            assert Seal(sha, Tree.Branch(t.kids, [])).refs == refs;
            o := Rejig(refs, [], t.kids, Nil, e);
          }
        } else {
          o := DeleteBelowBranch(n, k, t, e);
        }
    }

    /** Past a leaf: its value is taken for the hash of a node, and the search goes on there. */
    method RunPast(val: Bytes, k: Key) returns (o: Step<Node<H>>)
      requires StoreOk()
      ensures o == match Here().follow(val, k)
                   case Missing => Absent
                   case Hit => Strayed
                   case Broken(why) => Threw(why)
    {
      var h := asHash(val);
      if h.None? {
        return Threw(LeafCast);
      }
      var v := SearchHash(h.value, k, {});
      match v
      case Missing => o := Absent;
      case Hit => o := Strayed;
      case Broken(why) => o := Threw(why);
    }

    method DeleteBelowExt(n: Node<H>, k: Key, ghost t: Tree, ghost e: Env) returns (o: Step<Node<H>>)
      requires StoreOk() && e == Here() && n == Seal(sha, t)
      requires Canonical(t) && Shaped(t) && Within(scope, t) && Covers(t, true) && t.Ext?
      modifies db`main, db`held
      ensures Reports(Delete(e, t, k), o)
      ensures o.Changed? ==> o.value == Seal(sha, Delete(e, t, k).t)
      ensures !o.Strayed? ==> StoreOk()
      ensures o.Absent? || (o.Threw? && o.why != BadCast) ==> db.main == old(db.main) && db.held == old(db.held)
      ensures o == Threw(BadCast) ==> forall h ::
                db.Total(h) + Lost(sha, e, t, k, h) == old(db.Total(h))
      ensures o.Changed? ==> forall h ::
                db.Total(h) + OccRef(sha, t, h) == old(db.Total(h)) + Occ(sha, Delete(e, t, k).t, h)
      decreases t, 0, 0
    {
      if !(n.key <= k) {
        return Absent;
      }
      ghost var k' := k[|n.key|..];
      assert forall h :: OccRef(sha, t.child, h) == Occ(sha, t, h);
      WithinExt(scope, t.key, t.child);
      var aux := DeleteAtAux(n.ref, k[|n.key|..], t.child, e);
      if !aux.Changed? {
        return Unchanged(aux);
      }
      ghost var c := Delete(e, t.child, k').t;
      DeleteCanonical(e, t.child, k');
      WithinDeleted(scope, e, t.child, k');
      var joined := ReplaceBelow(n, aux.value, t, c);
      o := Changed(joined);
    }

    /** An extension whose child has been edited: dropped, and its key put in front of the new child. */
    method ReplaceBelow(n: Node<H>, below: Ref<H>, ghost t: Tree, ghost c: Tree) returns (joined: Node<H>)
      requires StoreOk() && n == Seal(sha, t) && t.Ext? && below == RefOf(sha, c)
      requires !c.Nil? && Canonical(c) && Within(scope, c)
      requires forall h :: db.Total(h) >= OccSelf(sha, t, h) + OccRef(sha, c, h)
      modifies db`main, db`held
      ensures StoreOk() && joined == Seal(sha, Join(t.key, c))
      ensures forall h ::
                db.Total(h) + OccSelf(sha, t, h) + OccRef(sha, c, h) == old(db.Total(h)) + Occ(sha, Join(t.key, c), h)
    {
      KillNode(n, t);
      joined := JoinRef(n.key, below, c);
    }

    method DeleteBelowBranch(n: Node<H>, k: Key, ghost t: Tree, ghost e: Env) returns (o: Step<Node<H>>)
      requires StoreOk() && e == Here() && n == Seal(sha, t)
      requires Canonical(t) && Shaped(t) && Within(scope, t) && Covers(t, true)
      requires t.Branch? && k != []
      modifies db`main, db`held
      ensures Reports(Delete(e, t, k), o)
      ensures o.Changed? ==> o.value == Seal(sha, Delete(e, t, k).t)
      ensures !o.Strayed? ==> StoreOk()
      ensures o.Absent? || (o.Threw? && o.why != BadCast) ==> db.main == old(db.main) && db.held == old(db.held)
      ensures o == Threw(BadCast) ==> forall h ::
                db.Total(h) + Lost(sha, e, t, k, h) == old(db.Total(h))
      ensures o.Changed? ==> forall h ::
                db.Total(h) + OccRef(sha, t, h) == old(db.Total(h)) + Occ(sha, Delete(e, t, k).t, h)
      decreases t, 0, 1
    {
      ghost var kid := t.kids[k[0]];
      NamedHere(n.val, kid, t);
      var aux := DeleteInSlot(n, k, t, e);
      if !aux.Changed? {
        return Unchanged(aux);
      }
      BranchHeir(e, t.kids, t.val, k);
      if Heir(t, k, []) {
        forall h { LostAtBranch(sha, e, t, k, h); }
        if asHash(n.val).Some? {
          StillNamed(sha, old(db.main), db.main, db.disk, db.enforceRefs, asHash(n.val).value, kid, t);
        }
      }
      o := Rejig(n.refs[k[0] := aux.value], n.val, t.kids[k[0] := Delete(e, kid, k[1..]).t], kid, e);
    }

    /** The child of a branch that holds k, edited; the branch itself then loses its reference. */
    method DeleteInSlot(n: Node<H>, k: Key, ghost t: Tree, ghost e: Env) returns (o: Step<Ref<H>>)
      requires StoreOk() && e == Here() && n == Seal(sha, t)
      requires Canonical(t) && Shaped(t) && Within(scope, t) && Covers(t, true)
      requires t.Branch? && k != []
      modifies db`main, db`held
      ensures Reports(Delete(e, t.kids[k[0]], k[1..]), o)
      ensures !o.Strayed? ==> StoreOk()
      ensures o.Absent? || (o.Threw? && o.why != BadCast) ==> db.main == old(db.main) && db.held == old(db.held)
      ensures o == Threw(BadCast) ==> forall h ::
                db.Total(h) + Lost(sha, e, t.kids[k[0]], k[1..], h) == old(db.Total(h))
      ensures o.Changed? ==>
                var c := Delete(e, t.kids[k[0]], k[1..]).t;
                var kids := t.kids[k[0] := c];
                BranchNode(n.refs[k[0] := o.value], n.val) == Seal(sha, Tree.Branch(kids, n.val))
                && (forall i :: 0 <= i < 16 ==> Canonical(kids[i]) && Within(scope, kids[i]))
                && (forall h :: db.Total(h) + OccRef(sha, t, h) == old(db.Total(h)) + OccKids(sha, kids, h))
      ensures o.Changed? && t.kids[k[0]].Leaf? ==>
                SameEntries(old(db.main), db.main) &&
                forall h :: h !in db.disk ==>
                  CountIn(db.main, h) + OccSelf(sha, t.kids[k[0]], h) + OccSelf(sha, t, h) == CountIn(old(db.main), h)
      decreases t, 0, 0
    {
      ghost var kid := t.kids[k[0]];
      forall h ensures OccRef(sha, kid, h) <= Occ(sha, t, h) { OccKidsAt(sha, t.kids, k[0], h); }
      WithinSlot(scope, t.kids, t.val, k[0]);
      o := DeleteAtAux(n.refs[k[0]], k[1..], kid, e);
      if o.Changed? {
        ghost var c, middle := Delete(e, kid, k[1..]).t, db.main;
        KillNode(n, t);
        SlotEdited(e, t, k, c);
        forall h { OccKidsUpdate(sha, t.kids, k[0], c, h); }
        if kid.Leaf? {
          DroppedBoth(sha, kid, t, old(db.main), middle, db.main, db.disk);
        }
      }
    }

    ghost predicate ValueNamesTwoItem(v: Bytes)
      reads db
    {
      asHash(v).Some? && NamesTwoItem(db.main, db.disk, db.enforceRefs, asHash(v).value)
    }

    /** The environment's answer for a branch value, read off the store. */
    lemma NamedHere(v: Bytes, leaf: Tree, branch: Tree)
      requires StoreOk() && Canonical(branch) && Within(scope, branch) && branch.Branch?
      ensures Here().named(v, leaf).Some? <==>
              asHash(v).Some? && NamesAfter(sha, db.main, db.disk, db.enforceRefs, asHash(v).value, leaf)
      ensures asHash(v).Some? ==>
                var h := asHash(v).value;
                (h in db.main && h in db.disk ==> db.main[h].0 == db.disk[h]) &&
                (h in db.main && Hash(sha, branch) == h ==> db.main[h].0.BranchNode?)
    {
      if asHash(v).Some? {
        var h := asHash(v).value;
        if h in db.main && h in db.disk { OneNode(sha, scope, db.main[h].0, db.disk[h]); }
        if h in db.main && Hash(sha, branch) == h {
          CanonicalIsBelow(branch);
          NodeOf(db.main[h].0, branch);
        }
      }
    }

    /** The branch after the edit of one child is the stored form of the edited tree, and sound below. */
    lemma SlotEdited(e: Env, t: Tree, k: Key, c: Tree)
      requires Canonical(t) && Shaped(t) && Within(scope, t) && t.Branch? && k != []
      requires Delete(e, t.kids[k[0]], k[1..]) == Removed(c)
      ensures Seal(sha, Tree.Branch(t.kids[k[0] := c], t.val)) ==
              BranchNode(Seal(sha, t).refs[k[0] := RefOf(sha, c)], t.val)
      ensures var kids := t.kids[k[0] := c]; forall i :: 0 <= i < 16 ==> Canonical(kids[i]) && Within(scope, kids[i])
    {
      WithinSlot(scope, t.kids, t.val, k[0]);
      DeleteCanonical(e, t.kids[k[0]], k[1..]);
      WithinDeleted(scope, e, t.kids[k[0]], k[1..]);
      SealSlot(sha, t.kids, t.val, k[0], c);
      forall i | 0 <= i < 16 ensures Within(scope, t.kids[i]) { WithinSlot(scope, t.kids, t.val, i); }
    }

    method DeleteAtAux(orig: Ref<H>, k: Key, ghost c: Tree, ghost e: Env) returns (o: Step<Ref<H>>)
      requires StoreOk() && e == Here() && orig == RefOf(sha, c)
      requires Canonical(c) && Shaped(c) && Within(scope, c) && Covers(c, true)
      modifies db`main, db`held
      ensures Reports(Delete(e, c, k), o)
      ensures o.Changed? ==> o.value == RefOf(sha, Delete(e, c, k).t)
      ensures !o.Strayed? ==> StoreOk()
      ensures o.Absent? || (o.Threw? && o.why != BadCast) ==> db.main == old(db.main) && db.held == old(db.held)
      ensures o == Threw(BadCast) ==> forall h ::
                db.Total(h) + Lost(sha, e, c, k, h) == old(db.Total(h))
      ensures o.Changed? ==> forall h ::
                db.Total(h) + OccRef(sha, c, h) == old(db.Total(h)) + OccRef(sha, Delete(e, c, k).t, h)
      ensures o.Changed? && c.Leaf? ==> Dropped(sha, c, old(db.main), db.main)
      decreases c, 1
    {
      if orig.Empty? {
        return Absent;
      }
      var n := Deref(orig, c);
      var b := DeleteAt(n, k, c, e);
      if !b.Changed? {
        return Unchanged(b);
      }
      DeleteCanonical(e, c, k);
      WithinDeleted(scope, e, c, k);
      var r := StreamNode(b.value, Delete(e, c, k).t);
      o := Changed(r);
    }

    /** A branch left after one of its entries went: kept, merged into its last child, or made a leaf. */
    method Rejig(refs: seq<Ref<H>>, val: Bytes, ghost kids: seq<Tree>, ghost gone: Tree, ghost e: Env)
        returns (o: Step<Node<H>>)
      requires StoreOk() && |kids| == 16 && BranchNode(refs, val) == Seal(sha, Tree.Branch(kids, val))
      requires forall i :: 0 <= i < 16 ==> Canonical(kids[i]) && Within(scope, kids[i])
      requires Covers(Tree.Branch(kids, val), false)
      requires TrieDelete.UniqueInUse(kids, val) == 16 ==>
                 (ValueNamesTwoItem(val) <==> e.named(val, gone).Some?)
      modifies db`main, db`held
      ensures Reports(TrieDelete.Rejig(e, kids, val, gone), o)
      ensures o.Changed? ==> o.value == Seal(sha, TrieDelete.Rejig(e, kids, val, gone).t)
      ensures StoreOk()
      ensures o.Strayed? ==> asHash(val).Some? && forall h ::
                db.Total(h) == old(db.Total(h)) - if h == asHash(val).value && old(db.Total(h)) > 0 then 1 else 0
      ensures o.Threw? ==> o == Threw(BadCast) && db.main == old(db.main) && db.held == old(db.held)
      ensures o.Changed? ==> forall h ::
                db.Total(h) + OccKids(sha, kids, h) ==
                  old(db.Total(h)) + Occ(sha, TrieDelete.Rejig(e, kids, val, gone).t, h)
    {
      var used := UniqueInUse(refs, val, kids);
      if used == 255 {
        return Changed(BranchNode(refs, val));
      }
      forall j | 0 <= j < 16 && j != used ensures kids[j].Nil? { assert !Used(kids, val, j); }
      forall h { OccKidsSole(sha, kids, used, h); }
      if used < 16 {
        var joined := JoinRef([used], refs[used], kids[used]);
        return Changed(joined);
      }
      // isTwoItemNode of the value itself: it is converted to a hash and looked up
      var h := asHash(val);
      if h.None? {
        return Threw(BadCast);
      }
      var named := db.Lookup(h.value);
      if named.Some? && (named.value.LeafNode? || named.value.ExtNode?) {
        // merge and graft: the node that the value names loses a reference and takes the value's place
        var _ := db.Kill(h.value);
        return Strayed;
      }
      return Changed(LeafNode([], val));
    }

    /** uniqueInUse: the one slot in use, the value's being the last, or 255 when none or several are. */
    method UniqueInUse(refs: seq<Ref<H>>, val: Bytes, ghost kids: seq<Tree>) returns (used: int)
      requires |kids| == 16 && BranchNode(refs, val) == Seal(sha, Tree.Branch(kids, val))
      ensures used == 255 || (0 <= used <= 16 && Sole(kids, val, used))
      ensures used == 255 <==> TwoUsed(kids, val) || forall i :: 0 <= i <= 16 ==> !Used(kids, val, i)
      ensures used == TrieDelete.UniqueInUse(kids, val)
    {
      used := 255;
      for i := 0 to 17
        invariant used == 255 || (0 <= used < i && Used(kids, val, used))
        invariant forall j :: 0 <= j < i && j != used ==> !Used(kids, val, j)
      {
        if if i < 16 then !refs[i].Empty? else val != [] {
          assert Used(kids, val, i);
          if used == 255 {
            used := i;
          } else {
            assert TwoUsed(kids, val);
            assert forall s :: Sole(kids, val, s) ==> (s == i || s == used);
            used := 255;
            return;
          }
        }
      }
      assert used != 255 ==> Sole(kids, val, used);
    }

    method IsTwoItemNode(r: Ref<H>, ghost c: Tree) returns (b: bool)
      requires StoreOk() && r == RefOf(sha, c) && !c.Nil? && Canonical(c) && Within(scope, c) && Covers(c, true)
      ensures b == TwoItem(c)
    {
      var n := Deref(r, c);
      b := n.LeafNode? || n.ExtNode?;
    }

    /** [pre, r] with a two-item r folded into it. */
    method JoinRef(pre: Key, r: Ref<H>, ghost c: Tree) returns (n: Node<H>)
      requires StoreOk() && r == RefOf(sha, c) && !c.Nil? && Canonical(c) && Within(scope, c) && Covers(c, true)
      modifies db`main, db`held
      ensures StoreOk() && n == Seal(sha, Join(pre, c))
      ensures forall h ::
                db.Total(h) + OccRef(sha, c, h) == old(db.Total(h)) + Occ(sha, Join(pre, c), h)
    {
      var two := IsTwoItemNode(r, c);
      if two {
        n := Graft(pre, r, c);
      } else {
        n := ExtNode(pre, r);
      }
    }

    method Graft(pre: Key, r: Ref<H>, ghost c: Tree) returns (n: Node<H>)
      requires StoreOk() && r == RefOf(sha, c) && TwoItem(c) && Canonical(c) && Within(scope, c) && Covers(c, true)
      modifies db`main, db`held
      ensures StoreOk() && n == Seal(sha, Join(pre, c))
      ensures forall h ::
                db.Total(h) + OccRef(sha, c, h) == old(db.Total(h)) + Occ(sha, Join(pre, c), h)
    {
      var below := Deref(r, c);
      if r.Digest? {
        var _ := db.Kill(r.hash);
      }
      n := if below.LeafNode? then LeafNode(pre + below.key, below.val) else ExtNode(pre + below.key, below.ref);
    }

    // ----- the public operations

    /**
     * Points the trie at a root, creating the empty trie when it is missing; false stands for
     * RootNotFound. t is the tree that the caller knows to be under that root; what it has on disk
     * counts as referenced again.
     */
    method SetRoot(h: H, ghost t: Tree) returns (ok: bool)
      requires StoreOk()
      modifies this, db`main, db`held
      ensures StoreOk() && root == h
      ensures ok <==> h == sha(NullNode) || old(db.Look(h)).Some?
      ensures db.main == if h == sha(NullNode) && old(db.Look(h)).None?
                         then old(db.main)[h := (NullNode, old(db.Count(h)) + 1)] else old(db.main)
      ensures Canonical(t) && Within(scope, t) && h == Hash(sha, t) &&
              (forall g :: g !in db.disk ==>
                old(db.Count(g)) >= OccRoot(sha, t, g) || (t.Nil? && g == h && old(db.Look(h)).None?))
              ==> ok && Valid() && tree == t
    {
      if Canonical(t) { CanonicalShaped(t); }
      root, tree := h, t;
      InitEmpty(h);
      var o := db.Lookup(root);
      ok := o.Some?;
      HoldAgain(t);
    }

    /** The empty trie is created when its node is asked for and missing. */
    method InitEmpty(h: H)
      requires StoreOk()
      modifies db`main, db`held
      ensures StoreOk()
      ensures db.main == if h == sha(NullNode) && old(db.Look(h)).None?
                         then old(db.main)[h := (NullNode, old(db.Count(h)) + 1)] else old(db.main)
      ensures forall g ::
                db.Total(g) == old(db.Total(g)) + if g == h == sha(NullNode) && old(db.Look(h)).None? then 1 else 0
    {
      if h == sha(NullNode) {
        var known := db.Exists(h);
        if !known {
          assert IsNode(sha, scope, NullNode) by {
            assert Canonical(Nil) && Within(scope, Nil) && NullNode == Seal(sha, Nil);
          }
          db.Insert(h, NullNode);
        }
      }
    }

    /** What a tree has on disk counts as referenced again. */
    ghost method HoldAgain(t: Tree)
      requires StoreOk()
      modifies db`held
      ensures StoreOk()
      ensures forall g :: db.Total(g) == old(db.Total(g)) + if g in db.disk then OccRoot(sha, t, g) else 0
    {
      ghost var before, disk := db.held, db.disk;
      db.held := g => if g in disk then before(g) + OccRoot(sha, t, g) else before(g);
    }

    method At(k: Key) returns (v: Bytes)
      requires Valid()
      ensures v == Get(tree, k)
    {
      var n := Node(root, tree);
      v := AtAux(n, k, tree);
    }

    /**
     * The edit below has dropped the old root if it had 32 bytes or more; a shorter root, which is
     * kept by hash all the same, is dropped here. Then the new root is stored.
     */
    method ReplaceRoot(rv: Node<H>, b: Node<H>, ghost t: Tree)
      requires StoreOk() && root == Hash(sha, tree) && rv == Seal(sha, tree)
      requires b == Seal(sha, t) && Canonical(t) && Within(scope, t)
      requires forall h :: db.Total(h) >= OccRoot(sha, tree, h) - OccSelf(sha, tree, h) - Occ(sha, tree, h)
      modifies this, db`main, db`held
      ensures StoreOk() && tree == t && root == Hash(sha, t)
      ensures forall h ::
                db.Total(h) + OccRoot(sha, old(tree), h) - OccSelf(sha, old(tree), h) - Occ(sha, old(tree), h)
                == old(db.Total(h)) + OccRoot(sha, t, h) - Occ(sha, t, h)
    {
      if Size(rv) < 32 {
        var _ := db.Kill(root);
      }
      root := sha(b);
      assert IsNode(sha, scope, b);
      db.Insert(root, b);
      tree := t;
    }

    method Insert(k: Key, v: Bytes)
      requires Valid() && v != [] && (k, v) in scope
      modifies this, db`main, db`held
      ensures Valid()
      ensures forall q :: Get(tree, q) == if q == k then v else Get(old(tree), q)
      ensures forall h ::
                db.Total(h) + OccRoot(sha, old(tree), h) == old(db.Total(h)) + OccRoot(sha, tree, h)
    {
      CanonicalShaped(tree);
      CanonicalIsBelow(tree);
      assert Tail(scope, k, v) by { assert [] + k == k; }
      var rootValue := Node(root, tree);
      var b := MergeAt(rootValue, k, v, false, tree);
      InsertCanonical(tree, k, v);
      WithinInserted(scope, tree, k, v);
      forall q { InsertGet(tree, k, v, q); }
      ReplaceRoot(rootValue, b, Inserted(tree, k, v));
    }

    /**
     * Removes k. Unless something blocks it, this is map deletion. An exception leaves the root as
     * it was, and the store too unless it is the one for a long branch value, which comes after
     * the removed leaf and its branch have lost their references. Where the source's behaviour is
     * undefined, or goes on in a node that a value named, nothing is promised.
     */
    method Remove(k: Key) returns (o: Step<()>)
      requires Valid()
      modifies this, db`main, db`held
      ensures Reports(Delete(old(Here()), old(tree), k), o)
      ensures o.Absent? || o.Changed? <==> !Blocked(old(Here()), old(tree), k)
      ensures o.Absent? || o.Changed? ==> Valid()
      ensures o.Absent? || o.Changed? ==> forall q :: Get(tree, q) == if q == k then [] else Get(old(tree), q)
      ensures o.Absent? || o.Changed? ==> forall h ::
                db.Total(h) + OccRoot(sha, old(tree), h) == old(db.Total(h)) + OccRoot(sha, tree, h)
      ensures o.Absent? <==> Delete(old(Here()), old(tree), k).NotFound?
      ensures o.Absent? ==> root == old(root) && tree == old(tree) && db.main == old(db.main)
      ensures o.Threw? && Throws(o.why) ==> StoreOk() && root == old(root) && tree == old(tree)
      ensures o.Threw? && Throws(o.why) && o.why != BadCast ==> Valid() && db.main == old(db.main)
      ensures o == Threw(BadCast) ==> forall h ::
                db.Total(h) + Lost(sha, old(Here()), old(tree), k, h) == old(db.Total(h))
    {
      CanonicalShaped(tree);
      ghost var e := Here();
      DeleteCompletesIff(e, tree, k);
      forall q { DeleteGet(e, tree, k, q); }
      var rv := Node(root, tree);
      var s := DeleteAt(rv, k, tree, e);
      if !s.Changed? {
        return Unchanged(s);
      }
      DeleteCanonical(e, tree, k);
      WithinDeleted(scope, e, tree, k);
      ReplaceRoot(rv, s.value, Delete(e, tree, k).t);
      o := Changed(());
    }
  }

  /** The faults that are exceptions; the others are undefined behaviour or never end. */
  predicate Throws(f: Fault) {
    f.BadCast? || f.LeafCast? || f.BadRlp?
  }
}
