/**
 * Whole runs of a trie over its store: any list of inserts, removes and flushes to disk. After
 * every run the trie is the plain map the operations describe, its root is the one the one-shot
 * builder computes for that map, and the reference counts are exact.
 */
module TrieRun {
  import opened Nibbles
  import opened Trie
  import opened TrieInsert
  import opened TrieDelete
  import opened TrieBlocked
  import opened TrieNode
  import opened OverlayStore
  import opened TrieStore
  import opened TrieScope
  import opened TrieProbe
  import opened TrieHash
  import TrieCheck

  datatype Op =
    | Put(k: Key, v: Bytes)
    | Del(k: Key)
    | Flush

  type Contents = map<Key, Bytes>

  function Value(m: Contents, k: Key): Bytes {
    if k in m then m[k] else []
  }

  function Apply(m: Contents, op: Op): Contents {
    match op
    case Put(k, v) => m[k := v]
    case Del(k) => m - {k}
    case Flush => m
  }

  function ApplyAll(m: Contents, ops: seq<Op>): Contents
    decreases |ops|
  {
    if ops == [] then m else ApplyAll(Apply(m, ops[0]), ops[1..])
  }

  ghost predicate Models(t: Tree, m: Contents) {
    forall k :: Get(t, k) == Value(m, k)
  }

  // ----- which removals the code can carry out, said of the map

  /** A value that is the hash of a node of the scope, stored or not. */
  ghost predicate CouldName<H(!new)>(sha: Sha<H>, sc: Scope, asHash: AsHash<H>, v: Bytes) {
    asHash(v).Some? && exists c :: Canonical(c) && Within(sc, c) && Hash(sha, c) == asHash(v).value
  }

  ghost predicate DeadEndIn(m: Contents, k: Key, p: Key) {
    p < k && Value(m, p) != [] && forall q :: p < q ==> Value(m, q) == []
  }

  ghost predicate ForkIn(m: Contents, k: Key, a: Key, b: Key) {
    a != [] && b != [] && a[0] != b[0] && Value(m, k + a) != [] && Value(m, k + b) != []
  }

  ghost predicate HeirIn(m: Contents, k: Key, p: Key) {
    p < k && Value(m, k) != [] && Value(m, p) != [] && forall q :: p < q && q != k ==> Value(m, q) == []
  }

  ghost predicate ForksIn(m: Contents, k: Key) {
    Value(m, k) == [] && exists a, b :: ForkIn(m, k, a, b)
  }

  /** Removing k cannot work, whatever else the store holds. */
  ghost predicate SurelyBlocked<H(!new)>(sha: Sha<H>, sc: Scope, asHash: AsHash<H>, m: Contents, k: Key) {
    || (exists p :: DeadEndIn(m, k, p) && !CouldName(sha, sc, asHash, Value(m, p)))
    || ForksIn(m, k)
    || (exists p :: HeirIn(m, k, p) && |Value(m, p)| > 32)
  }

  /** Removing k may go wrong, depending on what else the store holds. */
  ghost predicate MayBlock<H(!new)>(sha: Sha<H>, sc: Scope, asHash: AsHash<H>, m: Contents, k: Key) {
    || (exists p :: DeadEndIn(m, k, p))
    || ForksIn(m, k)
    || (exists p :: HeirIn(m, k, p) && (|Value(m, p)| > 32 || CouldName(sha, sc, asHash, Value(m, p))))
  }

  lemma ShapesModel(t: Tree, m: Contents, k: Key)
    requires Models(t, m)
    ensures forall p :: DeadEnd(t, k, p) <==> DeadEndIn(m, k, p)
    ensures forall p :: Heir(t, k, p) <==> HeirIn(m, k, p)
    ensures ForksAt(t, k) <==> ForksIn(m, k)
  {
    forall p ensures DeadEnd(t, k, p) <==> DeadEndIn(m, k, p) { DeadEndModel(t, m, k, p); }
    forall p ensures Heir(t, k, p) <==> HeirIn(m, k, p) { HeirModel(t, m, k, p); }
    forall a, b ensures ForkVia(t, k, a, b) <==> ForkIn(m, k, a, b) { }
    assert Get(t, k) == Value(m, k);
  }

  lemma DeadEndModel(t: Tree, m: Contents, k: Key, p: Key)
    requires Models(t, m)
    ensures DeadEnd(t, k, p) <==> DeadEndIn(m, k, p)
  {
    forall q ensures Get(t, q) == Value(m, q) { }
  }

  lemma HeirModel(t: Tree, m: Contents, k: Key, p: Key)
    requires Models(t, m)
    ensures Heir(t, k, p) <==> HeirIn(m, k, p)
  {
    forall q ensures Get(t, q) == Value(m, q) { }
  }

  /** What lies between: the map alone bounds the removals that are blocked from both sides. */
  lemma BlockedBounds<H(!new)>(trie: GenericTrieDB<H>, m: Contents, k: Key)
    requires trie.Valid() && Models(trie.tree, m)
    ensures SurelyBlocked(trie.sha, trie.scope, trie.asHash, m, k) ==> Blocked(trie.Here(), trie.tree, k)
    ensures Blocked(trie.Here(), trie.tree, k) ==> MayBlock(trie.sha, trie.scope, trie.asHash, m, k)
  {
    ShapesModel(trie.tree, m, k);
    forall v, x: Key | !CouldName(trie.sha, trie.scope, trie.asHash, v) && x != []
      ensures trie.Here().follow(v, x) != Missing
    {
      NothingNamed(trie, v, x);
    }
    forall v, leaf | trie.Here().named(v, leaf).Some? ensures CouldName(trie.sha, trie.scope, trie.asHash, v) {
      NamedCould(trie, v, leaf);
    }
    BoundedBy(trie.Here(), trie.sha, trie.scope, trie.asHash, trie.tree, m, k);
  }

  /** The same for any environment in which only hashes of nodes name nodes. */
  lemma BoundedBy<H(!new)>(e: Env, sha: Sha<H>, sc: Scope, asHash: AsHash<H>, t: Tree, m: Contents, k: Key)
    requires Models(t, m)
    requires forall p :: DeadEnd(t, k, p) <==> DeadEndIn(m, k, p)
    requires forall p :: Heir(t, k, p) <==> HeirIn(m, k, p)
    requires ForksAt(t, k) <==> ForksIn(m, k)
    requires forall v, x: Key :: !CouldName(sha, sc, asHash, v) && x != [] ==> e.follow(v, x) != Missing
    requires forall v, leaf :: e.named(v, leaf).Some? ==> CouldName(sha, sc, asHash, v)
    ensures SurelyBlocked(sha, sc, asHash, m, k) ==> Blocked(e, t, k)
    ensures Blocked(e, t, k) ==> MayBlock(sha, sc, asHash, m, k)
  {
    if p :| DeadEndIn(m, k, p) && !CouldName(sha, sc, asHash, Value(m, p)) { OverrunSurely(e, t, m, k, p); }
    if p :| HeirIn(m, k, p) && |Value(m, p)| > 32 { HeirSurely(e, t, m, k, p); }
    if p :| LoneHeir(e, t, k, p) {
      assert HeirIn(m, k, p) && Get(t, p) == Value(m, p);
    }
  }

  lemma OverrunSurely(e: Env, t: Tree, m: Contents, k: Key, p: Key)
    requires Models(t, m) && DeadEnd(t, k, p)
    requires e.follow(Value(m, p), k[|p|..]) != Missing
    ensures Overrun(e, t, k, p)
  {
    assert Get(t, p) == Value(m, p);
  }

  lemma HeirSurely(e: Env, t: Tree, m: Contents, k: Key, p: Key)
    requires Models(t, m) && Heir(t, k, p) && |Value(m, p)| > 32
    ensures LoneHeir(e, t, k, p)
  {
    assert Get(t, p) == Value(m, p);
  }

  lemma NothingNamed<H(!new)>(trie: GenericTrieDB<H>, v: Bytes, k: Key)
    requires trie.StoreOk() && !CouldName(trie.sha, trie.scope, trie.asHash, v) && k != []
    ensures trie.Here().follow(v, k) != Missing
  {
    if trie.asHash(v).Some? { FoundIsNode(trie, trie.asHash(v).value); }
  }

  lemma NamedCould<H(!new)>(trie: GenericTrieDB<H>, v: Bytes, leaf: Tree)
    requires trie.StoreOk() && trie.Here().named(v, leaf).Some?
    ensures CouldName(trie.sha, trie.scope, trie.asHash, v)
  {
    FoundIsNode(trie, trie.asHash(v).value);
  }

  /** What is found under a hash is a node of the scope that has it. */
  lemma FoundIsNode<H(!new)>(trie: GenericTrieDB<H>, h: H)
    requires trie.StoreOk()
    ensures trie.db.Look(h).Some? ==> exists c :: Canonical(c) && Within(trie.scope, c) && Hash(trie.sha, c) == h
  {
    if trie.db.Look(h).Some? {
      var n := trie.db.Look(h).value;
      assert h in trie.db.main ==> IsNode(trie.sha, trie.scope, trie.db.main[h].0);
      assert h in trie.db.disk ==> IsNode(trie.sha, trie.scope, trie.db.disk[h]);
      var c := TreeOf(trie.sha, trie.scope, n);
      assert Hash(trie.sha, c) == h;
    }
  }

  /** No removal of the run may be blocked when its turn comes. */
  ghost predicate Clear<H(!new)>(sha: Sha<H>, sc: Scope, asHash: AsHash<H>, m: Contents, ops: seq<Op>)
    decreases |ops|
  {
    ops == [] || ((ops[0].Del? ==> !MayBlock(sha, sc, asHash, m, ops[0].k))
      && Clear(sha, sc, asHash, Apply(m, ops[0]), ops[1..]))
  }

  /** No removal of the run is surely blocked when its turn comes. */
  ghost predicate Passable<H(!new)>(sha: Sha<H>, sc: Scope, asHash: AsHash<H>, m: Contents, ops: seq<Op>)
    decreases |ops|
  {
    ops == [] || ((ops[0].Del? ==> !SurelyBlocked(sha, sc, asHash, m, ops[0].k))
      && Passable(sha, sc, asHash, Apply(m, ops[0]), ops[1..]))
  }

  /** Every value put in is non-empty and belongs to the scope. */
  ghost predicate PutsFrom(sc: Scope, ops: seq<Op>) {
    forall i :: 0 <= i < |ops| && ops[i].Put? ==> ops[i].v != [] && (ops[i].k, ops[i].v) in sc
  }

  /** The keys and values that a run puts in. */
  ghost function PutScope(ops: seq<Op>): Scope {
    iset i | 0 <= i < |ops| && ops[i].Put? :: (ops[i].k, ops[i].v)
  }

  ghost predicate PutsValues(ops: seq<Op>) {
    forall i :: 0 <= i < |ops| && ops[i].Put? ==> ops[i].v != []
  }

  /** No value of the map or the run is the hash of a node. */
  ghost predicate PlainValues<H(!new)>(sha: Sha<H>, sc: Scope, asHash: AsHash<H>, m: Contents, ops: seq<Op>) {
    (forall k :: k in m ==> !CouldName(sha, sc, asHash, m[k])) &&
    (forall i :: 0 <= i < |ops| && ops[i].Put? ==> !CouldName(sha, sc, asHash, ops[i].v))
  }

  /** Without such values the map decides alone. */
  lemma {:induction false} PlainDecides<H(!new)>(sha: Sha<H>, sc: Scope, asHash: AsHash<H>, m: Contents, ops: seq<Op>)
    requires PlainValues(sha, sc, asHash, m, ops)
    ensures Clear(sha, sc, asHash, m, ops) <==> Passable(sha, sc, asHash, m, ops)
    decreases |ops|
  {
    if ops != [] {
      forall p | Value(m, p) != [] ensures !CouldName(sha, sc, asHash, Value(m, p)) { }
      assert ops[0].Del? ==> (MayBlock(sha, sc, asHash, m, ops[0].k) <==> SurelyBlocked(sha, sc, asHash, m, ops[0].k));
      forall i | 0 <= i < |ops[1..]| && ops[1..][i].Put? ensures !CouldName(sha, sc, asHash, ops[1..][i].v) {
        assert ops[1..][i] == ops[i + 1];
      }
      PlainDecides(sha, sc, asHash, Apply(m, ops[0]), ops[1..]);
    }
  }

  /** A set of keys none of which properly begins another, as keys of one fixed length are. */
  ghost predicate PrefixFreeKeys(keys: set<Key>) {
    forall p, q :: p in keys && q in keys ==> !(p < q)
  }

  /** Runs over prefix-free keys are never blocked. */
  lemma {:induction false} PrefixFreeClear<H(!new)>(sha: Sha<H>, sc: Scope, asHash: AsHash<H>, keys: set<Key>,
                                                    m: Contents, ops: seq<Op>)
    requires PrefixFreeKeys(keys) && m.Keys <= keys
    requires forall i :: 0 <= i < |ops| && !ops[i].Flush? ==> ops[i].k in keys
    ensures Clear(sha, sc, asHash, m, ops)
    decreases |ops|
  {
    if ops != [] {
      if ops[0].Del? { NotBlocked(sha, sc, asHash, keys, m, ops[0].k); }
      forall i | 0 <= i < |ops[1..]| && !ops[1..][i].Flush? ensures ops[1..][i].k in keys {
        assert ops[1..][i] == ops[i + 1];
      }
      PrefixFreeClear(sha, sc, asHash, keys, Apply(m, ops[0]), ops[1..]);
    }
  }

  lemma NotBlocked<H(!new)>(sha: Sha<H>, sc: Scope, asHash: AsHash<H>, keys: set<Key>, m: Contents, k: Key)
    requires PrefixFreeKeys(keys) && m.Keys <= keys && k in keys
    ensures !MayBlock(sha, sc, asHash, m, k)
  {
    forall p | p < k ensures Value(m, p) == [] { assert p in keys ==> !(p < k); }
    forall a, b ensures !ForkIn(m, k, a, b) {
      if a != [] { assert k < k + a; assert k + a !in keys; }
    }
  }

  // ----- runs

  /** How a run ends: all operations done, an exception, or behaviour that is not modelled further. */
  datatype End = Finished | Thrown(why: Fault) | Wild

  function EndOf(s: Step<()>): End {
    if s.Absent? || s.Changed? then Finished
    else if s.Threw? && Throws(s.why) then Thrown(s.why)
    else Wild
  }

  /**
   * Carries out the operations in order and stops at the first one that goes wrong. Without such a
   * stop the trie holds the resulting map, every node is resolvable, and counts stay exact.
   */
  method Run<H(==, !new)>(trie: GenericTrieDB<H>, ops: seq<Op>, ghost m: Contents) returns (end: End)
    requires trie.Valid() && Models(trie.tree, m) && PutsFrom(trie.scope, ops)
    modifies trie, trie.db
    ensures Clear(trie.sha, trie.scope, trie.asHash, m, ops) ==> end.Finished?
    ensures end.Finished? ==> Passable(trie.sha, trie.scope, trie.asHash, m, ops)
    ensures end.Finished? ==> trie.Valid() && Models(trie.tree, ApplyAll(m, ops))
    ensures end.Finished? && old(trie.Exact()) ==> trie.Exact()
    ensures !end.Wild? ==> trie.StoreOk() && old(trie.db.disk).Keys <= trie.db.disk.Keys
    decreases |ops|
  {
    if ops == [] {
      return Finished;
    }
    end := RunOne(trie, ops[0], m);
    if end.Finished? {
      end := Run(trie, ops[1..], Apply(m, ops[0]));
    }
  }

  /** One operation: a removal is carried out exactly when nothing in trie and store blocks it. */
  method RunOne<H(==, !new)>(trie: GenericTrieDB<H>, op: Op, ghost m: Contents) returns (end: End)
    requires trie.Valid() && Models(trie.tree, m) && (op.Put? ==> op.v != [] && (op.k, op.v) in trie.scope)
    modifies trie, trie.db
    ensures end.Finished? <==> !(op.Del? && Blocked(old(trie.Here()), old(trie.tree), op.k))
    ensures op.Del? && SurelyBlocked(trie.sha, trie.scope, trie.asHash, m, op.k) ==> !end.Finished?
    ensures op.Del? && !MayBlock(trie.sha, trie.scope, trie.asHash, m, op.k) ==> end.Finished?
    ensures end.Finished? ==> trie.Valid() && Models(trie.tree, Apply(m, op))
    ensures end.Finished? && old(trie.Exact()) ==> trie.Exact()
    ensures !end.Wild? ==> trie.StoreOk() && old(trie.db.disk).Keys <= trie.db.disk.Keys
  {
    match op
    case Put(k, v) =>
      Put(trie, k, v, m);
      end := Finished;
    case Del(k) =>
      end := Delete(trie, k, m);
    case Flush =>
      Commit(trie);
      end := Finished;
  }

  method Put<H(==, !new)>(trie: GenericTrieDB<H>, k: Key, v: Bytes, ghost m: Contents)
    requires trie.Valid() && Models(trie.tree, m) && v != [] && (k, v) in trie.scope
    modifies trie, trie.db`main, trie.db`held
    ensures trie.Valid() && Models(trie.tree, m[k := v])
    ensures old(trie.Exact()) ==> trie.Exact()
  {
    trie.Insert(k, v);
  }

  method Delete<H(==, !new)>(trie: GenericTrieDB<H>, k: Key, ghost m: Contents) returns (end: End)
    requires trie.Valid() && Models(trie.tree, m)
    modifies trie, trie.db`main, trie.db`held
    ensures end.Finished? <==> !Blocked(old(trie.Here()), old(trie.tree), k)
    ensures SurelyBlocked(trie.sha, trie.scope, trie.asHash, m, k) ==> !end.Finished?
    ensures !MayBlock(trie.sha, trie.scope, trie.asHash, m, k) ==> end.Finished?
    ensures end.Finished? ==> trie.Valid() && Models(trie.tree, m - {k})
    ensures end.Finished? && old(trie.Exact()) ==> trie.Exact()
    ensures !end.Wild? ==> trie.StoreOk()
  {
    BlockedBounds(trie, m, k);
    var s := trie.Remove(k);
    end := EndOf(s);
  }

  /** A flush leaves the trie as it is. */
  method Commit<H(==, !new)>(trie: GenericTrieDB<H>)
    requires trie.Valid()
    modifies trie.db
    ensures trie.Valid() && old(trie.db.disk).Keys <= trie.db.disk.Keys && trie.tree == old(trie.tree)
            && trie.root == old(trie.root)
    ensures old(trie.Exact()) ==> trie.Exact()
    ensures trie.db.backed ==> forall h :: OccRoot(trie.sha, trie.tree, h) > 0 ==> h in trie.db.disk
  {
    trie.db.Commit();
  }

  /** s is the sorted listing of the map. */
  ghost predicate Listing(s: seq<Entry>, m: Contents) {
    && Sorted(s)
    && (forall i :: 0 <= i < |s| ==> s[i].0 in m && m[s[i].0] == s[i].1)
    && (forall k :: k in m ==> exists i :: IsEntry(s, i, 0, k))
  }

  lemma ListingModels(s: seq<Entry>, m: Contents, t: Tree)
    requires Listing(s, m) && Models(t, m)
    ensures Lists(s, t)
  {
    forall i | 0 <= i < |s| ensures s[i].0[0..] == s[i].0 && s[i].0[..0] == [] { }
    forall k | Get(t, k) != [] ensures exists i :: 0 <= i < |s| && IsEntry(s, i, 0, k) {
      assert k in m;
      var i :| IsEntry(s, i, 0, k);
    }
  }

  /**
   * History leaves no trace: however a map was reached, through whatever inserts, removes and
   * flushes, the trie's root node is the one that rlp256 builds from the map, the root is its
   * hash, and check(true) holds.
   */
  method RootOfRun<H(==, !new)>(sha: Sha<H>, asHash: AsHash<H>, backed: bool, ops: seq<Op>, s: seq<Entry>)
    returns (end: End, root: H, node: Node<H>, rebuilt: Node<H>, clean: bool)
    requires Strict(asHash) && NoCollision(sha, PutScope(ops)) && PutsValues(ops)
    requires Listing(s, ApplyAll(map[], ops))
    ensures Clear(sha, PutScope(ops), asHash, map[], ops) ==> end.Finished?
    ensures end.Finished? ==> Passable(sha, PutScope(ops), asHash, map[], ops)
    ensures PlainValues(sha, PutScope(ops), asHash, map[], ops) ==>
            (end.Finished? <==> Clear(sha, PutScope(ops), asHash, map[], ops))
    ensures end.Finished? ==>
              exists t :: Canonical(t) && Models(t, ApplyAll(map[], ops)) && root == Hash(sha, t)
                && node == Seal(sha, t)
    ensures end.Finished? ==> node == rebuilt && root == sha(rebuilt) && clean
  {
    var db := new OverlayDB<H>(sha, backed);
    var trie := new GenericTrieDB<H>(sha, asHash, db, PutScope(ops));
    assert Models(trie.tree, map[]) && trie.Exact();
    if PlainValues(sha, PutScope(ops), asHash, map[], ops) { PlainDecides(sha, PutScope(ops), asHash, map[], ops); }
    end := Run(trie, ops, map[]);
    rebuilt := Rlp256(sha, s);
    root, clean, node := trie.root, false, rebuilt;
    if end.Finished? {
      ListingModels(s, ApplyAll(map[], ops), trie.tree);
      node := trie.Node(trie.root, trie.tree);
      clean := TrieCheck.Check(trie, true);
    }
  }

  /**
   * What was flushed survives: after any later run, finished or ended by an exception, rolling the
   * table back and reopening the flushed root gives the flushed contents again.
   */
  method FlushedStateSurvives<H(==, !new)>(trie: GenericTrieDB<H>, later: seq<Op>, ghost m: Contents) returns (end: End)
    requires trie.Valid() && trie.db.backed && Models(trie.tree, m) && PutsFrom(trie.scope, later)
    modifies trie, trie.db
    ensures Clear(trie.sha, trie.scope, trie.asHash, m, later) ==> end.Finished?
    ensures end.Finished? ==> Passable(trie.sha, trie.scope, trie.asHash, m, later)
    ensures !end.Wild? ==> trie.Valid() && trie.root == old(trie.root) && Models(trie.tree, m) && trie.db.main == map[]
  {
    var root := trie.root;
    ghost var t := trie.tree;
    Commit(trie);
    end := Run(trie, later, m);
    if !end.Wild? {
      trie.db.Rollback();
      var _ := trie.SetRoot(root, t);
    }
  }
}
