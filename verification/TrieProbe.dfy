/**
 * Where deleteAt goes when it takes a value for a hash. Running past a leaf it looks the leaf's
 * value up in the node store and searches the node it finds, which belongs to no known place of
 * the trie; on the way down nothing is changed. This is that search, on nodes as they are stored.
 */
module TrieProbe {
  import opened Nibbles
  import opened Trie
  import opened TrieInsert
  import opened TrieDelete
  import opened TrieBlocked
  import opened TrieNode
  import opened TrieScope

  /** What can be looked up, by hash. */
  type View<H> = map<H, Node<H>>

  /** toHash with its strict flags: fails for more than 32 bytes, pads shorter strings. */
  type AsHash<!H> = Bytes -> Option<H>

  ghost predicate Strict<H>(asHash: AsHash<H>) {
    forall v :: asHash(v).None? <==> |v| > 32
  }

  /** One hash more has been visited. */
  lemma Fewer<H>(keys: set<H>, seen: set<H>, h: H)
    requires h in keys && h !in seen
    ensures |keys - (seen + {h})| < |keys - seen|
  {
    assert keys - seen == (keys - (seen + {h})) + {h};
  }

  /**
   * Looks for k below a node. Without a node, the search for an exhausted key goes on to write a
   * malformed branch, any other throws. The hashes seen since a nibble was last consumed tell an
   * endless descent.
   */
  ghost function Probe<H>(view: View<H>, asHash: AsHash<H>, n: Node<H>, k: Key, seen: set<H>): Verdict
    decreases |k|, |view.Keys - seen|, Size(n), 0
  {
    match n
    case NullNode => Missing
    case LeafNode(key, val) =>
      if key == k then Hit
      else if !(key <= k) then Missing
      else if asHash(val).None? then Broken(LeafCast)
      else Follow(view, asHash, asHash(val).value, k[|key|..], if key == [] then seen else {})
    case ExtNode(key, ref) =>
      if key <= k then ProbeRef(view, asHash, ref, k[|key|..], if key == [] then seen else {}) else Missing
    case BranchNode(refs, val) =>
      if k == [] then if val == [] then Broken(PastEnd) else Hit
      else if k[0] < |refs| then
        RefSizeBound(refs, k[0]);
        ProbeRef(view, asHash, refs[k[0]], k[1..], {})
      else Missing
  }

  ghost function ProbeRef<H>(view: View<H>, asHash: AsHash<H>, r: Ref<H>, k: Key, seen: set<H>): Verdict
    decreases |k|, |view.Keys - seen|, RefSize(r), 1
  {
    match r
    case Empty => Missing
    case Inline(m) => Probe(view, asHash, m, k, seen)
    case Digest(h) => Follow(view, asHash, h, k, seen)
  }

  ghost function Follow<H>(view: View<H>, asHash: AsHash<H>, h: H, k: Key, seen: set<H>): Verdict
    decreases |k|, |view.Keys - seen|, 0, 2
  {
    if h !in view then if k == [] then Hit else Broken(BadRlp)
    else if h in seen then Broken(Endless)
    else
      Fewer(view.Keys, seen, h);
      Probe(view, asHash, view[h], k, seen + {h})
  }

  /** What deleteAt finds for the key k below the node that a leaf's value names. */
  ghost function FollowValue<H>(view: View<H>, asHash: AsHash<H>, v: Bytes, k: Key): Verdict {
    if asHash(v).None? then Broken(LeafCast) else Follow(view, asHash, asHash(v).value, k, {})
  }

  lemma {:induction false} RefSizeBound<H>(refs: seq<Ref<H>>, i: nat)
    requires i < |refs|
    ensures RefSize(refs[i]) <= RefsSize(refs)
  {
    if i > 0 { RefSizeBound(refs[1..], i - 1); }
  }

  // ----- the store as deleteAt sees it

  ghost predicate IsTwoItem<H>(n: Node<H>) {
    n.LeafNode? || n.ExtNode?
  }

  /** A stored form of a canonical tree of the scope. */
  ghost predicate IsNode<H>(sha: Sha<H>, sc: Scope, n: Node<H>) {
    exists c :: Canonical(c) && Within(sc, c) && n == Seal(sha, c)
  }

  ghost function TreeOf<H>(sha: Sha<H>, sc: Scope, n: Node<H>): (c: Tree)
    requires IsNode(sha, sc, n)
    ensures Canonical(c) && Within(sc, c) && n == Seal(sha, c)
  {
    var c :| Canonical(c) && Within(sc, c) && n == Seal(sha, c);
    c
  }

  /**
   * The two-item node that v names after the leaf has been dropped. The fleeting hashes are those
   * that can no longer be looked up once they lose a reference.
   */
  ghost function Named<H>(sha: Sha<H>, sc: Scope, view: View<H>, fleeting: set<H>, asHash: AsHash<H>, v: Bytes,
                          leaf: Tree)
    : Option<Tree>
  {
    if asHash(v).None? then None
    else
      var h := asHash(v).value;
      if h in view && IsTwoItem(view[h]) && !(h in fleeting && OccSelf(sha, leaf, h) == 1) && IsNode(sha, sc, view[h])
      then Some(TreeOf(sha, sc, view[h]))
      else None
  }

  ghost function MakeEnv<H>(sha: Sha<H>, sc: Scope, view: View<H>, fleeting: set<H>, asHash: AsHash<H>): Env {
    Env((v, k) => FollowValue(view, asHash, v, k), (v, leaf) => Named(sha, sc, view, fleeting, asHash, v, leaf))
  }

  // ----- what the search finds, said of contents

  /** Every node below the root of c that is referred to by hash can be looked up. */
  ghost predicate Held<H>(sha: Sha<H>, view: View<H>, c: Tree)
    decreases c, 0
  {
    match c
    case Nil => true
    case Leaf(_, _) => true
    case Ext(_, child) => HeldRef(sha, view, child)
    case Branch(kids, _) => forall i :: 0 <= i < |kids| ==> HeldRef(sha, view, kids[i])
  }

  ghost predicate HeldRef<H>(sha: Sha<H>, view: View<H>, c: Tree)
    decreases c, 1
  {
    Held(sha, view, c) &&
    (RefOf(sha, c).Digest? ==> Hash(sha, c) in view && view[Hash(sha, c)] == Seal(sha, c))
  }

  /** A leaf with the empty key stored under h names another hash, so that a search for k goes on there with k. */
  ghost predicate PassesOn<H>(view: View<H>, asHash: AsHash<H>, h: H, to: H) {
    h in view && view[h].LeafNode? && view[h].key == [] && asHash(view[h].val) == Some(to)
  }

  /**
   * A search that comes to an end without ever having seen h ends the same way when it has: had it
   * come to h, it would have been sent back to a hash that it had seen.
   */
  lemma {:induction false} SeenProbe<H>(view: View<H>, asHash: AsHash<H>, n: Node<H>, k: Key, seen: set<H>, h: H, to: H)
    requires PassesOn(view, asHash, h, to) && to in seen && seen <= view.Keys && k != []
    requires Probe(view, asHash, n, k, seen) != Broken(Endless)
    ensures Probe(view, asHash, n, k, seen + {h}) == Probe(view, asHash, n, k, seen)
    decreases |k|, |view.Keys - seen|, Size(n), 0
  {
    match n
    case NullNode =>
    case LeafNode(key, val) =>
      if key != k && key <= k && asHash(val).Some? && key == [] {
        assert k[0..] == k;
        SeenFollow(view, asHash, asHash(val).value, k, seen, h, to);
      }
    case ExtNode(key, ref) =>
      if key == [] {
        assert k[0..] == k;
        SeenRef(view, asHash, ref, k, seen, h, to);
      }
    case BranchNode(_, _) =>
  }

  lemma {:induction false} SeenRef<H>(view: View<H>, asHash: AsHash<H>, r: Ref<H>, k: Key, seen: set<H>, h: H, to: H)
    requires PassesOn(view, asHash, h, to) && to in seen && seen <= view.Keys && k != []
    requires ProbeRef(view, asHash, r, k, seen) != Broken(Endless)
    ensures ProbeRef(view, asHash, r, k, seen + {h}) == ProbeRef(view, asHash, r, k, seen)
    decreases |k|, |view.Keys - seen|, RefSize(r), 1
  {
    match r
    case Empty =>
    case Inline(m) => SeenProbe(view, asHash, m, k, seen, h, to);
    case Digest(g) => SeenFollow(view, asHash, g, k, seen, h, to);
  }

  lemma SentBack<H>(view: View<H>, asHash: AsHash<H>, h: H, to: H, k: Key, seen: set<H>)
    requires PassesOn(view, asHash, h, to) && to in seen + {h} && seen <= view.Keys && k != []
    ensures Follow(view, asHash, h, k, seen) == Broken(Endless)
  {
    assert k[0..] == k;
    if h !in seen {
      Fewer(view.Keys, seen, h);
      assert Follow(view, asHash, to, k, seen + {h}) == Broken(Endless);
      assert Probe(view, asHash, view[h], k, seen + {h}) == Broken(Endless);
    }
  }

  lemma {:induction false} SeenFollow<H>(view: View<H>, asHash: AsHash<H>, g: H, k: Key, seen: set<H>, h: H, to: H)
    requires PassesOn(view, asHash, h, to) && to in seen + {g} && seen <= view.Keys && k != []
    requires Follow(view, asHash, g, k, seen) != Broken(Endless)
    ensures Follow(view, asHash, g, k, seen + {h}) == Follow(view, asHash, g, k, seen)
    decreases |k|, |view.Keys - seen|, 0, 2
  {
    if g in view {
      Fewer(view.Keys, seen, g);
      assert k[0..] == k;
      if g == h { SentBack(view, asHash, h, to, k, seen); }
      SeenProbe(view, asHash, view[g], k, seen + {g}, h, to);
      assert (seen + {g}) + {h} == (seen + {h}) + {g};
    }
  }

  /** Having seen more can only make a search look endless. */
  lemma {:induction false} LessSeen<H>(view: View<H>, asHash: AsHash<H>, n: Node<H>, k: Key, less: set<H>, seen: set<H>)
    requires less <= seen && Probe(view, asHash, n, k, seen) != Broken(Endless)
    ensures Probe(view, asHash, n, k, less) == Probe(view, asHash, n, k, seen)
    decreases |k|, |view.Keys - seen|, Size(n), 0
  {
    match n
    case NullNode =>
    case LeafNode(key, val) =>
      if key != k && key <= k && asHash(val).Some? && key == [] {
        assert k[0..] == k;
        LessSeenFollow(view, asHash, asHash(val).value, k, less, seen);
      }
    case ExtNode(key, ref) =>
      if key == [] {
        assert k[0..] == k;
        LessSeenRef(view, asHash, ref, k, less, seen);
      }
    case BranchNode(_, _) =>
  }

  lemma {:induction false} LessSeenRef<H>(view: View<H>, asHash: AsHash<H>, r: Ref<H>, k: Key, less: set<H>,
                                          seen: set<H>)
    requires less <= seen && ProbeRef(view, asHash, r, k, seen) != Broken(Endless)
    ensures ProbeRef(view, asHash, r, k, less) == ProbeRef(view, asHash, r, k, seen)
    decreases |k|, |view.Keys - seen|, RefSize(r), 1
  {
    match r
    case Empty =>
    case Inline(m) => LessSeen(view, asHash, m, k, less, seen);
    case Digest(g) => LessSeenFollow(view, asHash, g, k, less, seen);
  }

  lemma {:induction false} LessSeenFollow<H>(view: View<H>, asHash: AsHash<H>, g: H, k: Key, less: set<H>, seen: set<H>)
    requires less <= seen && Follow(view, asHash, g, k, seen) != Broken(Endless)
    ensures Follow(view, asHash, g, k, less) == Follow(view, asHash, g, k, seen)
    decreases |k|, |view.Keys - seen|, 0, 2
  {
    if g in view {
      Fewer(view.Keys, seen, g);
      LessSeen(view, asHash, view[g], k, less + {g}, seen + {g});
    }
  }

  /** A node found under a hash is searched like the node itself. */
  lemma FollowIsProbe<H>(view: View<H>, asHash: AsHash<H>, h: H, k: Key)
    requires h in view
    requires view[h].ExtNode? ==> view[h].key != []
    ensures Follow(view, asHash, h, k, {}) == Missing <==> Probe(view, asHash, view[h], k, {}) == Missing
  {
    var n := view[h];
    assert {} + {h} == {h};
    if Probe(view, asHash, n, k, {h}) == Missing {
      LessSeen(view, asHash, n, k, {}, {h});
    }
    if n.LeafNode? && n.key == [] && k != [] && asHash(n.val).Some? && Probe(view, asHash, n, k, {}) == Missing {
      assert k[0..] == k;
      SeenFollow(view, asHash, asHash(n.val).value, k, {}, h, asHash(n.val).value);
    }
  }

  /**
   * Below a canonical tree whose nodes can all be looked up, the search finds nothing exactly when
   * removing the key from that tree would find nothing.
   */
  lemma {:induction false} ProbeIsDelete<H>(sha: Sha<H>, view: View<H>, asHash: AsHash<H>, e: Env, c: Tree, k: Key)
    requires Canonical(c) && Shaped(c) && Held(sha, view, c)
    requires forall v, x :: e.follow(v, x) == FollowValue(view, asHash, v, x)
    ensures Probe(view, asHash, Seal(sha, c), k, {}) == Missing <==> Delete(e, c, k).NotFound?
    decreases c, 0
  {
    match c
    case Nil =>
    case Leaf(key, val) =>
    case Ext(key, child) =>
      if key <= k { ProbeRefIsDelete(sha, view, asHash, e, child, k[|key|..]); }
    case Branch(kids, val) =>
      if k != [] {
        assert Seal(sha, c).refs[k[0]] == RefOf(sha, kids[k[0]]);
        ProbeRefIsDelete(sha, view, asHash, e, kids[k[0]], k[1..]);
        BranchMissing(e, kids, val, k);
      } else if val != [] {
        BranchAtEnd(e, kids, val);
      }
  }

  lemma {:induction false} ProbeRefIsDelete<H>(sha: Sha<H>, view: View<H>, asHash: AsHash<H>, e: Env, c: Tree, k: Key)
    requires Canonical(c) && Shaped(c) && HeldRef(sha, view, c)
    requires forall v, x :: e.follow(v, x) == FollowValue(view, asHash, v, x)
    ensures ProbeRef(view, asHash, RefOf(sha, c), k, {}) == Missing <==> Delete(e, c, k).NotFound?
    decreases c, 1
  {
    if !c.Nil? {
      ProbeIsDelete(sha, view, asHash, e, c, k);
      if RefOf(sha, c).Digest? { FollowIsProbe(view, asHash, Hash(sha, c), k); }
    }
  }

  lemma BranchMissing(e: Env, kids: seq<Tree>, val: Bytes, k: Key)
    requires |kids| == 16 && Shaped(Branch(kids, val)) && k != []
    ensures Delete(e, Branch(kids, val), k).NotFound? <==> Delete(e, kids[k[0]], k[1..]).NotFound?
  {
  }

  /**
   * So running past a leaf whose value names such a tree is harmless exactly when the rest of the
   * key is not stored there and removing it from there would not be blocked either.
   */
  lemma FollowMeans<H>(sha: Sha<H>, sc: Scope, view: View<H>, fleeting: set<H>, asHash: AsHash<H>, v: Bytes, k: Key,
                       c: Tree)
    requires Canonical(c) && Shaped(c) && Held(sha, view, c)
    requires asHash(v) == Some(Hash(sha, c)) && Hash(sha, c) in view && view[Hash(sha, c)] == Seal(sha, c)
    ensures var e := MakeEnv(sha, sc, view, fleeting, asHash);
            e.follow(v, k) == Missing <==> Get(c, k) == [] && !Blocked(e, c, k)
  {
    var e := MakeEnv(sha, sc, view, fleeting, asHash);
    ProbeIsDelete(sha, view, asHash, e, c, k);
    FollowIsProbe(view, asHash, Hash(sha, c), k);
    DeleteCompletesIff(e, c, k);
    DeleteGet(e, c, k, k);
  }

  // ----- two inputs that go wrong

  /** vq under 11, vp under aa, and vk under aabb. */
  function AliasTree(vq: Bytes, vp: Bytes, vk: Bytes): Tree {
    var below := Branch(NoKids()[11 := Leaf([11], vk)], vp);
    Branch(NoKids()[1 := Leaf([1], vq)][10 := Ext([10], below)], [])
  }

  lemma AliasContents(vq: Bytes, vp: Bytes, vk: Bytes)
    requires vq != [] && vp != [] && vk != []
    ensures var t := AliasTree(vq, vp, vk);
            Canonical(t) && Shaped(t) && Get(t, [1, 1]) == vq && Get(t, [10, 10]) == vp
              && Get(t, [10, 10, 11, 11]) == vk
  {
    var t := AliasTree(vq, vp, vk);
    var below := t.kids[10].child;
    assert Used(t.kids, t.val, 1) && Used(t.kids, t.val, 10);
    assert Used(below.kids, below.val, 11) && Used(below.kids, below.val, 16);
    assert Canonical(below);
    CanonicalShaped(t);
    assert [1, 1][1..] == [1];
    assert [10, 10][1..] == [10] && [10][1..] == [] && Get(below, []) == vp && Get(t.kids[10], [10]) == vp;
    var k: Key := [10, 10, 11, 11];
    assert k[1..] == [10, 11, 11] && [10, 11, 11][1..] == [11, 11] && [11, 11][1..] == [11];
    assert Get(below, [11, 11]) == vk && Get(t.kids[10], [10, 11, 11]) == vk;
  }

  /**
   * When vp is the hash of the stored leaf of vq, removing aabb throws vp away and puts vq's leaf in
   * its place, under aa1.
   */
  lemma AliasMisgrafted<H(!new)>(sha: Sha<H>, sc: Scope, view: View<H>, fleeting: set<H>, asHash: AsHash<H>,
                                 vq: Bytes, vp: Bytes, vk: Bytes)
    requires vq != [] && vp != [] && |vp| <= 32 && vk != []
    requires asHash(vp) == Some(sha(LeafNode([1], vq))) && asHash(vp).value in view && asHash(vp).value !in fleeting
    requires view[asHash(vp).value] == LeafNode([1], vq) && Within(sc, Leaf([1], vq))
    ensures var e, t, k := MakeEnv(sha, sc, view, fleeting, asHash), AliasTree(vq, vp, vk), [10, 10, 11, 11];
            Canonical(t) && Shaped(t) && Get(t, [10, 10]) == vp && Blocked(e, t, k) && Delete(e, t, k).Misgrafted?
            && Get(Delete(e, t, k).t, [10, 10]) == [] && Get(Delete(e, t, k).t, [10, 10, 1]) == vq
  {
    var e, t := MakeEnv(sha, sc, view, fleeting, asHash), AliasTree(vq, vp, vk);
    var k: Key := [10, 10, 11, 11];
    AliasContents(vq, vp, vk);
    assert Leaf([1], vq).Leaf? && Canonical(Leaf([1], vq)) && LeafNode([1], vq) == Seal(sha, Leaf([1], vq));
    assert IsNode(sha, sc, LeafNode([1], vq));
    var below := t.kids[10].child;
    assert e.named(vp, below.kids[11]) == Some(Leaf([1], vq));
    assert below.kids[11 := Nil] == NoKids();
    assert Sole(NoKids(), vp, 16);
    assert UniqueInUse(NoKids(), vp) == 16;
    assert Delete(e, below.kids[11], [11]) == Removed(Nil);
    assert [11, 11][1..] == [11] && Delete(e, below, [11, 11]) == Misgrafted(Leaf([1], vq));
    assert k[1..] == [10, 11, 11] && k[1..][1..] == [11, 11];
    assert Delete(e, t.kids[10], k[1..]) == Misgrafted(Join([10], Leaf([1], vq)));
    DeleteCompletesIff(e, t, k);
    var r := Delete(e, t, k).t;
    assert [10] + [1] == [10, 1];
    assert r.kids[10] == Leaf([10, 1], vq);
    assert [10, 10][1..] == [10] && [10, 10, 1][1..] == [10, 1];
  }

  /** A key that was never stored is found, and deleted, in a node that the value of a shorter key names. */
  lemma OverrunHits<H(!new)>(sha: Sha<H>, sc: Scope, view: View<H>, fleeting: set<H>, asHash: AsHash<H>, v: Bytes,
                             w: Bytes, x: Key)
    requires v != [] && x != [] && asHash(v).Some? && asHash(v).value in view && view[asHash(v).value] == LeafNode(x, w)
    ensures var e := MakeEnv(sha, sc, view, fleeting, asHash);
            Get(Leaf([], v), x) == [] && Delete(e, Leaf([], v), x) == Astray && Blocked(e, Leaf([], v), x)
  {
    var e := MakeEnv(sha, sc, view, fleeting, asHash);
    var h := asHash(v).value;
    assert Probe(view, asHash, view[h], x, {} + {h}) == Hit;
    assert Follow(view, asHash, h, x, {}) == Hit;
    assert x[0..] == x && e.follow(v, x) == Hit;
    DeleteCompletesIff(e, Leaf([], v), x);
  }
}
