/**
 * Uncles: the checks Block::enact makes of the uncles a block cites, the uncles that
 * Block::commitToSeal picks for a new block, and what the checks are for: along a branch no
 * block is rewarded twice (libethereum/Block.cpp:563-654, 768-793).
 */
module Uncles {
  import opened Nibbles
  import opened BlockTree

  datatype Fault =
    | TooManyUncles
    | UncleInChain
    | UnknownParent
    | UncleTooOld
    | UncleIsBrother
    | UncleParentNotInChain
    | InvalidHeader

  // ---------------------------------------------------------------- the validator

  /** What is asked of one uncle of a block with this number and parent, its novelty apart. */
  predicate Related<H(==)>(c: Chain<H>, parent: H, number: nat, u: H) {
    1 <= number - Num(c, u) <= 6 &&
    Known(c, c.head(u).parent) && Follows(c, u) &&
    c.head(u).parent == Ancestor(c, parent, number - Num(c, u))
  }

  /** A list of uncles that a block may cite. */
  ghost predicate Citable<H(!new)>(c: Chain<H>, hash: H, parent: H, number: nat, uncles: seq<H>) {
    |uncles| <= 2 && CitableFrom(c, Kin(c, parent, 6) + {hash}, parent, number, uncles)
  }

  /** The same without the limit: every uncle related, none excluded, none cited twice. */
  ghost predicate CitableFrom<H(!new)>(c: Chain<H>, excluded: set<H>, parent: H, number: nat, uncles: seq<H>) {
    (forall i :: 0 <= i < |uncles| ==> Related(c, parent, number, uncles[i]) && uncles[i] !in excluded) &&
    (forall i, j :: 0 <= i < j < |uncles| ==> uncles[i] != uncles[j])
  }

  /** The walk to the block that the parent of an uncle of this depth has to be. */
  method ExpectedParent<H(==)>(c: Chain<H>, parent: H, depth: nat) returns (a: H)
    requires depth >= 1
    ensures a == Ancestor(c, parent, depth)
  {
    a := ParentOf(c, parent);
    var i := 1;
    AncestorStep(c, parent, 0);
    while i < depth
      invariant 1 <= i <= depth && a == Ancestor(c, parent, i)
    {
      AncestorStep(c, parent, i);
      a := ParentOf(c, a);
      i := i + 1;
    }
  }

  /** The checks of one uncle, in their order. */
  method CheckUncle<H(==)>(c: Chain<H>, excluded: set<H>, parent: H, number: nat, u: H) returns (r: Option<Fault>)
    ensures r.None? <==> u !in excluded && Related(c, parent, number, u)
    ensures r == Some(UncleInChain) <==> u in excluded
    ensures r == Some(UnknownParent) <==> u !in excluded && !Known(c, c.head(u).parent)
    ensures var depth, parentKnown := number - Num(c, u), u !in excluded && Known(c, c.head(u).parent);
            (r == Some(UncleTooOld) <==> parentKnown && depth > 6) &&
            (r == Some(UncleIsBrother) <==> parentKnown && depth < 1) &&
            (r == Some(UncleParentNotInChain) <==>
             parentKnown && 1 <= depth <= 6 && c.head(u).parent != Ancestor(c, parent, depth)) &&
            (r == Some(InvalidHeader) <==>
             parentKnown && 1 <= depth <= 6 && c.head(u).parent == Ancestor(c, parent, depth) && !Follows(c, u))
    ensures r != Some(TooManyUncles)
  {
    if u in excluded {
      return Some(UncleInChain);
    }
    if !Known(c, c.head(u).parent) {
      return Some(UnknownParent);
    }
    var depth := number - Num(c, u);
    if depth > 6 {
      return Some(UncleTooOld);
    } else if depth < 1 {
      return Some(UncleIsBrother);
    }
    var expected := ExpectedParent(c, parent, depth);
    if expected != c.head(u).parent {
      return Some(UncleParentNotInChain);
    }
    if !Follows(c, u) {
      return Some(InvalidHeader);
    }
    return None;
  }

  /** The uncle checks of enact accept exactly the citable lists, and every uncle of an accepted one is rewarded. */
  method EnactUncles<H(==, !new)>(c: Chain<H>, hash: H, parent: H, number: nat, uncles: seq<H>)
    returns (r: Option<Fault>, rewarded: seq<H>)
    requires WellFormed(c) && Known(c, parent)
    ensures r.None? <==> Citable(c, hash, parent, number, uncles)
    ensures r == Some(TooManyUncles) <==> |uncles| > 2
    ensures r.None? ==> rewarded == uncles
  {
    rewarded := [];
    if |uncles| > 2 {
      return Some(TooManyUncles), rewarded;
    }
    var kin := AllKinFrom(c, parent, 6);
    var excluded := kin + {hash};
    ghost var first := excluded;
    for i := 0 to |uncles|
      invariant rewarded == uncles[..i]
      invariant excluded == first + set u | u in uncles[..i]
      invariant CitableFrom(c, first, parent, number, uncles[..i])
    {
      var u := uncles[i];
      r := CheckUncle(c, excluded, parent, number, u);
      if r.Some? {
        NotCitable(c, first, parent, number, uncles, i);
        return r, rewarded;
      }
      assert uncles[..i + 1] == uncles[..i] + [u];
      excluded := excluded + {u};
      rewarded := rewarded + [u];
    }
    assert uncles[..|uncles|] == uncles;
    return None, rewarded;
  }

  lemma NotCitable<H(!new)>(c: Chain<H>, excluded: set<H>, parent: H, number: nat, uncles: seq<H>, i: nat)
    requires i < |uncles|
    requires uncles[i] in excluded || uncles[i] in uncles[..i] || !Related(c, parent, number, uncles[i])
    ensures !CitableFrom(c, excluded, parent, number, uncles)
  {
    if uncles[i] in uncles[..i] {
      var j :| 0 <= j < i && uncles[..i][j] == uncles[i];
      assert uncles[j] == uncles[i];
    }
  }

  // ---------------------------------------------------------------- the producer

  /** A block that may be picked: a child of one of six ancestors above the genesis block, not yet kin. */
  predicate Eligible<H(==)>(c: Chain<H>, previous: H, u: H) {
    Known(c, u) && 2 <= Num(c, u) <= Num(c, previous) < Num(c, u) + 6 &&
    c.head(u).parent == Ancestor(c, previous, Num(c, previous) - Num(c, u) + 1) &&
    u !in Kin(c, previous, 6)
  }

  /**
   * What the producer looks for is what the validator lets through, with one exception: it stops
   * before the genesis block, and so leaves out the children of that block.
   */
  lemma EligibleIff<H(!new)>(c: Chain<H>, previous: H, u: H)
    requires WellFormed(c) && Known(c, u) && u != c.genesis
    ensures Eligible(c, previous, u) <==>
            Related(c, previous, Num(c, previous) + 1, u) && u !in Kin(c, previous, 6) && Num(c, u) != 1
  {
    assert Linked(c, u);
  }

  /** At most two uncles, all eligible, no two the same. */
  ghost predicate Picked<H(!new)>(c: Chain<H>, previous: H, uncles: seq<H>) {
    |uncles| <= 2 &&
    (forall i :: 0 <= i < |uncles| ==> Eligible(c, previous, uncles[i])) &&
    (forall i, j :: 0 <= i < j < |uncles| ==> uncles[i] != uncles[j])
  }

  /** The children of an ancestor that are not kin are eligible. */
  lemma ChildEligible<H(!new)>(c: Chain<H>, previous: H, gen: nat, u: H)
    requires WellFormed(c) && Known(c, previous) && gen < 6 && gen + 1 < Num(c, previous)
    ensures Known(c, Ancestor(c, previous, gen + 1)) && Ancestor(c, previous, gen + 1) in c.children
    ensures u in c.children[Ancestor(c, previous, gen + 1)] && u !in Kin(c, previous, 6) ==>
              Eligible(c, previous, u) && Num(c, u) == Num(c, previous) - gen
  {
    AncestorNumber(c, previous, gen + 1);
    assert Lists(c, Ancestor(c, previous, gen + 1), u);
    assert Linked(c, u);
  }

  /** The inner loop: the children of one ancestor, until there are two uncles. */
  method PickChildren<H(==, !new)>(c: Chain<H>, ghost previous: H, ghost gen: nat, p: H, picked: seq<H>,
                                   excludedBefore: set<H>)
    returns (uncles: seq<H>, excluded: set<H>)
    requires WellFormed(c) && Known(c, previous) && gen < 6 && gen + 1 < Num(c, previous)
    requires p == Ancestor(c, previous, gen + 1)
    requires Picked(c, previous, picked) && |picked| < 2
    requires excludedBefore == Kin(c, previous, 6) + set u | u in picked
    ensures Picked(c, previous, uncles) && picked <= uncles
    ensures |uncles| < 2 ==> excluded == Kin(c, previous, 6) + set u | u in uncles
    ensures |uncles| < 2 ==> forall u :: Eligible(c, previous, u) && Num(c, u) == Num(c, previous) - gen ==> u in uncles
  {
    ChildEligible(c, previous, gen, previous);
    uncles, excluded := picked, excludedBefore;
    var us := c.children[p];
    for k := 0 to |us|
      invariant Picked(c, previous, uncles) && picked <= uncles && |uncles| < 2
      invariant excluded == Kin(c, previous, 6) + set u | u in uncles
      invariant forall j :: 0 <= j < k ==> us[j] in excluded
    {
      if us[k] !in excluded {
        ChildEligible(c, previous, gen, us[k]);
        uncles := uncles + [us[k]];
        if |uncles| == 2 {
          return;
        }
        excluded := excluded + {us[k]};
      }
    }
    forall u | Eligible(c, previous, u) && Num(c, u) == Num(c, previous) - gen ensures u in uncles {
      assert Lists(c, p, u);
      var j :| 0 <= j < |us| && us[j] == u;
      assert us[j] in excluded;
    }
  }

  /**
   * The uncles commitToSeal picks on top of a block: eligible, different, at most two; and all
   * the eligible ones when they are fewer than two.
   */
  method PickUncles<H(==, !new)>(c: Chain<H>, previous: H) returns (uncles: seq<H>)
    requires WellFormed(c) && Known(c, previous)
    ensures Picked(c, previous, uncles)
    ensures |uncles| < 2 ==> forall u :: Eligible(c, previous, u) ==> u in uncles
  {
    uncles := [];
    if Num(c, previous) == 0 {
      return;
    }
    var excluded := AllKinFrom(c, previous, 6);
    var p, gen := c.head(previous).parent, 0;
    AncestorStep(c, previous, 0);
    AncestorNumber(c, previous, 1);
    while gen < 6 && p != c.genesis && |uncles| < 2
      invariant gen <= 6 && gen + 1 <= Num(c, previous)
      invariant p == Ancestor(c, previous, gen + 1)
      invariant p == c.genesis <==> gen + 1 == Num(c, previous)
      invariant Picked(c, previous, uncles)
      invariant |uncles| < 2 ==> excluded == Kin(c, previous, 6) + set u | u in uncles
      invariant |uncles| < 2 ==>
                  forall u :: Eligible(c, previous, u) && Num(c, u) > Num(c, previous) - gen ==> u in uncles
      decreases 6 - gen
    {
      uncles, excluded := PickChildren(c, previous, gen, p, uncles, excluded);
      AncestorNumber(c, previous, gen + 1);
      AncestorNumber(c, previous, gen + 2);
      AncestorStep(c, previous, gen + 1);
      gen, p := gen + 1, ParentOf(c, p);
    }
  }

  // ---------------------------------------------------------------- producer against validator

  /** d knows at least the blocks of c, and the same about them. */
  ghost predicate Extends<H(!new)>(d: Chain<H>, c: Chain<H>) {
    d.genesis == c.genesis && d.zero == c.zero && d.head == c.head &&
    forall h :: Known(c, h) ==> Known(d, h) && d.cited[h] == c.cited[h]
  }

  lemma {:induction false} SameAncestors<H(!new)>(c: Chain<H>, d: Chain<H>, h: H, i: nat)
    requires WellFormed(c) && WellFormed(d) && Extends(d, c) && Known(c, h) && i <= Num(c, h)
    ensures Ancestor(d, h, i) == Ancestor(c, h, i)
  {
    assert Linked(c, h);
    if i > 0 {
      SameAncestors(c, d, c.head(h).parent, i - 1);
    }
  }

  lemma {:induction false} SameKin<H(!new)>(c: Chain<H>, d: Chain<H>, h: H, generations: nat)
    requires WellFormed(c) && WellFormed(d) && Extends(d, c) && Known(c, h)
    ensures Kin(d, h, generations) == Kin(c, h, generations)
  {
    assert Linked(c, h);
    if generations > 0 && h != c.genesis {
      SameKin(c, d, c.head(h).parent, generations - 1);
    }
  }

  /**
   * Every list the producer picks is accepted by the validator, also by one that has meanwhile
   * come to know more blocks.
   */
  lemma PickedAccepted<H(!new)>(c: Chain<H>, d: Chain<H>, previous: H, hash: H, uncles: seq<H>)
    requires WellFormed(c) && WellFormed(d) && Extends(d, c) && Known(c, previous) && !Known(c, hash)
    requires Picked(c, previous, uncles)
    ensures Citable(d, hash, previous, Num(d, previous) + 1, uncles)
  {
    SameKin(c, d, previous, 6);
    forall i | 0 <= i < |uncles|
      ensures Related(d, previous, Num(d, previous) + 1, uncles[i]) && uncles[i] !in Kin(d, previous, 6) + {hash}
    {
      var u := uncles[i];
      assert Eligible(c, previous, u);
      assert Linked(c, u) && Linked(d, u);
      SameAncestors(c, d, previous, Num(c, previous) - Num(c, u) + 1);
    }
  }

  // ---------------------------------------------------------------- the uncle that is never picked

  /** A chain of hashes: genesis 1, its children 2 and 3, and 4 on top of 2; 0 is no block. */
  function ForkHead(h: int): Head<int> {
    match h
    case 1 => Head(0, 0, 0)
    case 2 => Head(1, 1, 1)
    case 3 => Head(1, 1, 1)
    case 4 => Head(2, 2, 2)
    case _ => Head(0, 7, 0)
  }

  function ForkedChain(): Chain<int> {
    Chain(1, 0, h => ForkHead(h), map[1 := [], 2 := [], 3 := [], 4 := []], map[1 := [2, 3], 2 := [4], 3 := [], 4 := []])
  }

  lemma ForkedWellFormed()
    ensures WellFormed(ForkedChain())
  {
    var c := ForkedChain();
    forall h ensures Linked(c, h) { }
    forall p, u ensures Lists(c, p, u) { }
  }

  lemma ForkedKin()
    ensures Kin(ForkedChain(), 4, 6) == {4, 2, 1} && Ancestor(ForkedChain(), 4, 2) == 1
  {
    var c := ForkedChain();
    assert Kin(c, 1, 4) == {1};
    assert Kin(c, 2, 5) == {2} + {} + Kin(c, 1, 4);
    assert Kin(c, 4, 6) == {4} + {} + Kin(c, 2, 5);
    assert Ancestor(c, 4, 2) == Ancestor(c, 2, 1) == Ancestor(c, 1, 0) == 1;
  }

  lemma NoneEligible(u: int)
    ensures !Eligible(ForkedChain(), 4, u)
  {
    ForkedKin();
  }

  /**
   * On that chain a block on top of 4 may cite 3, a child of the genesis block, and the producer finds
   * nothing to cite.
   */
  lemma GenesisChildNotPicked(hash: int, uncles: seq<int>)
    requires hash > 4 && Picked(ForkedChain(), 4, uncles)
    ensures WellFormed(ForkedChain()) && Citable(ForkedChain(), hash, 4, 3, [3]) && uncles == []
  {
    ForkedWellFormed();
    ForkedKin();
    assert Related(ForkedChain(), 4, 3, 3);
    if uncles != [] {
      var u := FirstPicked(ForkedChain(), 4, uncles);
      NoneEligible(u);
    }
  }

  lemma FirstPicked<H(!new)>(c: Chain<H>, previous: H, uncles: seq<H>) returns (u: H)
    requires Picked(c, previous, uncles) && uncles != []
    ensures Eligible(c, previous, u)
  {
    u := uncles[0];
  }

  // ---------------------------------------------------------------- whole chains

  /** A chain in which every block was accepted. */
  ghost predicate Enacted<H(!new)>(c: Chain<H>) {
    forall h :: EnactedBlock(c, h)
  }

  ghost predicate EnactedBlock<H(!new)>(c: Chain<H>, h: H) {
    Known(c, h) && h != c.genesis ==> Citable(c, h, c.head(h).parent, Num(c, h), c.cited[h])
  }

  /** A block cited as an uncle is not one of the ancestors. */
  lemma UncleOffBranch<H(!new)>(c: Chain<H>, b: H, k: nat, u: H)
    requires WellFormed(c) && Enacted(c) && Known(c, b) && k <= Num(c, b) && b != c.genesis
    requires u in c.cited[b]
    ensures u != Ancestor(c, b, k)
  {
    assert EnactedBlock(c, b) && Linked(c, b);
    var i :| 0 <= i < |c.cited[b]| && c.cited[b][i] == u;
    assert Related(c, c.head(b).parent, Num(c, b), u);
    AncestorNumber(c, b, k);
    if 0 < k <= 6 {
      AncestorIsKin(c, c.head(b).parent, 6, k - 1);
    }
  }

  /** No block is cited twice along a branch: b and an ancestor of b have no uncle in common. */
  lemma UncleOnce<H(!new)>(c: Chain<H>, b: H, k: nat, u: H)
    requires WellFormed(c) && Enacted(c) && Known(c, b) && 0 < k < Num(c, b)
    requires Known(c, Ancestor(c, b, k)) && u in c.cited[Ancestor(c, b, k)]
    ensures u !in c.cited[b]
  {
    AncestorNumber(c, b, k);
    var a, p := Ancestor(c, b, k), c.head(b).parent;
    assert EnactedBlock(c, a) && EnactedBlock(c, b) && Linked(c, b);
    var i :| 0 <= i < |c.cited[a]| && c.cited[a][i] == u;
    assert Related(c, c.head(a).parent, Num(c, a), u);
    if k <= 5 {
      CitedIsKin(c, p, 6, k - 1, u);
    }
    forall j | 0 <= j < |c.cited[b]| ensures c.cited[b][j] != u {
      assert Related(c, p, Num(c, b), c.cited[b][j]) && c.cited[b][j] !in Kin(c, p, 6);
    }
  }

  /** The chain with one block more. */
  function Imported<H>(c: Chain<H>, h: H, uncles: seq<H>): Chain<H>
    requires c.head(h).parent in c.children
  {
    var p := c.head(h).parent;
    c.(cited := c.cited[h := uncles], children := c.children[h := []][p := c.children[p] + [h]])
  }

  /** Importing an accepted block keeps the tree well formed and every block of it accepted. */
  lemma ImportKeeps<H(!new)>(c: Chain<H>, h: H, uncles: seq<H>)
    requires WellFormed(c) && Enacted(c) && !Known(c, h) && h != c.zero
    requires Known(c, c.head(h).parent) && Follows(c, h) && c.head(h).parent in c.children
    requires Citable(c, h, c.head(h).parent, Num(c, h), uncles)
    ensures WellFormed(Imported(c, h, uncles)) && Enacted(Imported(c, h, uncles))
  {
    var d := Imported(c, h, uncles);
    ImportWellFormed(c, h, uncles);
    forall b ensures EnactedBlock(d, b) {
      if Known(d, b) && b != d.genesis {
        assert EnactedBlock(c, b) && Linked(c, b);
        CitableExtends(c, d, b, c.head(b).parent, Num(c, b), d.cited[b]);
      }
    }
  }

  lemma ImportWellFormed<H(!new)>(c: Chain<H>, h: H, uncles: seq<H>)
    requires WellFormed(c) && !Known(c, h) && h != c.zero
    requires Known(c, c.head(h).parent) && Follows(c, h) && c.head(h).parent in c.children
    ensures WellFormed(Imported(c, h, uncles)) && Extends(Imported(c, h, uncles), c)
  {
    var d := Imported(c, h, uncles);
    forall b ensures Linked(d, b) {
      assert Linked(c, b);
    }
    forall p, u ensures Lists(d, p, u) {
      assert Lists(c, p, u) && Linked(c, u);
    }
  }

  /** What was citable stays so when more blocks are known. */
  lemma CitableExtends<H(!new)>(c: Chain<H>, d: Chain<H>, hash: H, parent: H, number: nat, uncles: seq<H>)
    requires WellFormed(c) && WellFormed(d) && Extends(d, c) && Known(c, parent) && number == Num(c, parent) + 1
    requires Citable(c, hash, parent, number, uncles)
    ensures Citable(d, hash, parent, number, uncles)
  {
    SameKin(c, d, parent, 6);
    forall i | 0 <= i < |uncles| ensures Related(d, parent, number, uncles[i]) {
      var u := uncles[i];
      assert Related(c, parent, number, u);
      SameAncestors(c, d, parent, number - Num(c, u));
    }
  }
}
