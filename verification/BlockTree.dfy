/**
 * The tree of known blocks that BlockChain keeps, as far as uncles are concerned
 * (libethereum/BlockChain.cpp:1377-1391). A hash determines the header it is the hash of.
 */
module BlockTree {
  /** The header fields that the uncle rules read. */
  datatype Head<H> = Head(parent: H, number: nat, timestamp: int)

  /**
   * The known blocks with the uncles each cites and the children each has; zero is the hash that
   * stands for no block.
   */
  datatype Chain<!H> = Chain(genesis: H, zero: H, head: H -> Head<H>, cited: map<H, seq<H>>, children: map<H, seq<H>>)

  predicate Known<H>(c: Chain<H>, h: H) {
    h in c.cited
  }

  function Num<H>(c: Chain<H>, h: H): nat {
    c.head(h).number
  }

  /** BlockHeader::verify of a block against its parent, as far as it reads these fields. */
  predicate Follows<H>(c: Chain<H>, h: H) {
    var parent := c.head(h).parent;
    Num(c, h) == Num(c, parent) + 1 && c.head(h).timestamp > c.head(parent).timestamp && Num(c, h) <= 0xffff_ffff
  }

  /** A known block other than the genesis block follows a known parent. */
  predicate Linked<H>(c: Chain<H>, h: H) {
    Known(c, h) && h != c.genesis ==> Known(c, c.head(h).parent) && Follows(c, h)
  }

  /** The children listed for a block are the known blocks that have it as their parent. */
  predicate Lists<H>(c: Chain<H>, p: H, u: H) {
    Known(c, p) ==> p in c.children && (u in c.children[p] <==> Known(c, u) && u != c.genesis && c.head(u).parent == p)
  }

  ghost predicate WellFormed<H(!new)>(c: Chain<H>) {
    Known(c, c.genesis) && Num(c, c.genesis) == 0 && !Known(c, c.zero) && c.head(c.genesis).parent == c.zero &&
    (forall h :: Linked(c, h)) &&
    (forall p, u :: Lists(c, p, u))
  }

  /** details(h).parent, zero for an unknown block. */
  function ParentOf<H>(c: Chain<H>, h: H): H {
    if Known(c, h) then c.head(h).parent else c.zero
  }

  /** The i-th ancestor. */
  function Ancestor<H>(c: Chain<H>, h: H, i: nat): H {
    if i == 0 then h else Ancestor(c, ParentOf(c, h), i - 1)
  }

  lemma {:induction false} AncestorStep<H>(c: Chain<H>, h: H, i: nat)
    ensures Ancestor(c, h, i + 1) == ParentOf(c, Ancestor(c, h, i))
  {
    if i > 0 {
      AncestorStep(c, ParentOf(c, h), i - 1);
    }
  }

  /** Ancestors are known down to the genesis block, each one number below the one before. */
  lemma {:induction false} AncestorNumber<H(!new)>(c: Chain<H>, h: H, i: nat)
    requires WellFormed(c) && Known(c, h) && i <= Num(c, h)
    ensures var a := Ancestor(c, h, i);
            Known(c, a) && Num(c, a) == Num(c, h) - i && (a == c.genesis <==> i == Num(c, h))
  {
    assert Linked(c, h);
    if i > 0 {
      AncestorNumber(c, c.head(h).parent, i - 1);
    }
  }

  /** What allKinFrom returns: the block, its ancestors of so many generations, and all uncles these cite. */
  function Kin<H>(c: Chain<H>, p: H, generations: nat): set<H>
  {
    if generations == 0 || p == c.genesis || !Known(c, p) then {p}
    else {p} + (set u | u in c.cited[p]) + Kin(c, c.head(p).parent, generations - 1)
  }

  method AllKinFrom<H(==, !new)>(c: Chain<H>, parent: H, generations: nat) returns (ret: set<H>)
    requires WellFormed(c) && Known(c, parent)
    ensures ret == Kin(c, parent, generations)
  {
    var p, i := parent, 0;
    ret := {p};
    while i < generations && p != c.genesis
      invariant i <= generations && Known(c, p) && p in ret
      invariant ret + Kin(c, p, generations - i) == Kin(c, parent, generations)
      invariant ret <= Kin(c, parent, generations)
      decreases generations - i
    {
      assert Linked(c, p);
      ret := ret + {c.head(p).parent} + set u | u in c.cited[p];
      assert c.head(p).parent in Kin(c, c.head(p).parent, generations - i - 1);
      i := i + 1;
      p := c.head(p).parent;
    }
  }

  /** The ancestors of so many generations are kin. */
  lemma {:induction false} AncestorIsKin<H(!new)>(c: Chain<H>, p: H, generations: nat, i: nat)
    requires WellFormed(c) && Known(c, p) && i <= generations && i <= Num(c, p)
    ensures Ancestor(c, p, i) in Kin(c, p, generations)
  {
    assert Linked(c, p);
    if i > 0 {
      AncestorIsKin(c, c.head(p).parent, generations - 1, i - 1);
    }
  }

  /** So are the uncles they cite. */
  lemma {:induction false} CitedIsKin<H(!new)>(c: Chain<H>, p: H, generations: nat, i: nat, u: H)
    requires WellFormed(c) && Known(c, p) && i < generations && i < Num(c, p)
    requires Known(c, Ancestor(c, p, i)) && u in c.cited[Ancestor(c, p, i)]
    ensures u in Kin(c, p, generations)
  {
    assert Linked(c, p);
    if i > 0 {
      CitedIsKin(c, c.head(p).parent, generations - 1, i - 1, u);
    }
  }

  /** And there are no other kin. */
  lemma {:induction false} KinIs<H(!new)>(c: Chain<H>, p: H, generations: nat, h: H) returns (i: nat)
    requires WellFormed(c) && Known(c, p) && h in Kin(c, p, generations)
    ensures i <= generations && i <= Num(c, p) && Known(c, Ancestor(c, p, i))
    ensures h == Ancestor(c, p, i) || (i < generations && i < Num(c, p) && h in c.cited[Ancestor(c, p, i)])
  {
    assert Linked(c, p);
    if h == p || h in c.cited[p] {
      i := 0;
    } else {
      var j := KinIs(c, c.head(p).parent, generations - 1, h);
      i := j + 1;
    }
  }
}
