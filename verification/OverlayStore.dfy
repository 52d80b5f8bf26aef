/**
 * The reference-counted node store: MemoryDB's counted table m_main, and the disk below it that
 * OverlayDB flushes to. A store without a disk is a plain MemoryDB.
 */
module OverlayStore {
  import opened Nibbles
  import opened TrieNode

  type Table<H> = map<H, (Node<H>, nat)>

  function CountIn<H>(main: Table<H>, h: H): nat {
    if h in main then main[h].1 else 0
  }

  function LookIn<H>(main: Table<H>, disk: map<H, Node<H>>, enforceRefs: bool, h: H): Option<Node<H>> {
    if h in main && (!enforceRefs || main[h].1 > 0) then Some(main[h].0)
    else if h in disk then Some(disk[h])
    else None
  }

  class OverlayDB<H(==, !new)> {
    ghost const sha: Sha<H>
    const backed: bool                // m_db is set
    var main: Table<H>                // m_main: node and reference count
    var disk: map<H, Node<H>>
    var enforceRefs: bool             // m_enforceRefs
    /** References that went to disk with their nodes; the disk itself does not count them. */
    ghost var held: H -> nat

    /** Every entry is filed under the hash of its node, and only the disk holds references. */
    ghost predicate Valid()
      reads this
    {
      && (forall h :: held(h) > 0 ==> h in disk)
      && (forall h :: h in main ==> sha(main[h].0) == h)
      && (forall h :: h in disk ==> sha(disk[h]) == h)
      && (!backed ==> disk == map[])
    }

    function Count(h: H): nat
      reads this
    {
      CountIn(main, h)
    }

    /** All references to h, in the table and on disk. */
    ghost function Total(h: H): nat
      reads this
    {
      Count(h) + held(h)
    }

    /** What lookup finds: the table first, as far as references count, then the disk. */
    ghost function Look(h: H): Option<Node<H>>
      reads this
    {
      LookIn(main, disk, enforceRefs, h)
    }

    /** All that lookup finds. */
    ghost function Found(): (m: map<H, Node<H>>)
      reads this
      ensures forall h :: h in m <==> Look(h).Some?
      ensures forall h :: h in m ==> m[h] == Look(h).value
    {
      map h | h in main.Keys + disk.Keys && Look(h).Some? :: Look(h).value
    }

    /** What lookup no longer finds once it loses a reference. */
    ghost function Fleeting(): set<H>
      reads this
    {
      set h | h in main && enforceRefs && h !in disk && main[h].1 == 1
    }

    constructor (ghost sha: Sha<H>, backed: bool)
      ensures Valid() && this.sha == sha && this.backed == backed
      ensures main == map[] && disk == map[] && !enforceRefs && forall h :: held(h) == 0
    {
      this.sha := sha;
      this.backed := backed;
      main, disk, enforceRefs := map[], map[], false;
      held := _ => 0;
    }

    /** The table first, then the disk; the empty answer is None. */
    method Lookup(h: H) returns (n: Option<Node<H>>)
      requires Valid()
      ensures n == Look(h)
      ensures n.Some? ==> sha(n.value) == h
      ensures h in disk || Count(h) > 0 ==> n.Some?
      ensures n.Some? ==> h in disk || h in main
      ensures enforceRefs && n.Some? ==> h in disk || Count(h) > 0
    {
      if h in main && (!enforceRefs || main[h].1 > 0) {
        n := Some(main[h].0);
      } else if backed && h in disk {
        n := Some(disk[h]);
      } else {
        n := None;
      }
    }

    method Exists(h: H) returns (b: bool)
      requires Valid()
      ensures b <==> Look(h).Some?
      ensures h in disk || Count(h) > 0 ==> b
      ensures b ==> h in disk || h in main
      ensures enforceRefs && b ==> h in disk || Count(h) > 0
    {
      b := h in main && (!enforceRefs || main[h].1 > 0);
      if !b && backed { b := h in disk; }
    }

    method Insert(h: H, n: Node<H>)
      requires Valid() && sha(n) == h
      modifies `main
      ensures Valid()
      ensures main == old(main)[h := (n, old(Count(h)) + 1)]
      ensures forall g :: Total(g) == old(Total(g)) + if g == h then 1 else 0
    {
      if h in main {
        main := main[h := (n, main[h].1 + 1)];
      } else {
        main := main[h := (n, 1)];
      }
    }

    /** One reference less; a count that is already zero stays, and false is returned. */
    method Kill(h: H) returns (b: bool)
      requires Valid()
      modifies `main, `held
      ensures Valid()
      ensures b <==> old(Count(h)) > 0
      ensures main.Keys == old(main).Keys
      ensures Count(h) == if b then old(Count(h)) - 1 else 0
      ensures forall g :: g in main ==> main[g].0 == old(main)[g].0 && (g != h ==> main[g].1 == old(main)[g].1)
      ensures forall g :: Total(g) == old(Total(g)) - if g == h && old(Total(h)) > 0 then 1 else 0
    {
      b := h in main && main[h].1 > 0;
      if b {
        main := main[h := (main[h].0, main[h].1 - 1)];
      } else {
        ghost var before := held;
        held := g => if g == h && before(g) > 0 then before(g) - 1 else before(g);
      }
    }

    /** Entries that are referenced go to disk; the table is emptied. */
    method Commit()
      requires Valid()
      modifies this
      ensures Valid() && enforceRefs == old(enforceRefs)
      ensures !backed ==> main == old(main)
      ensures backed ==> main == map[]
      ensures forall h :: h in disk <==> h in old(disk) || (backed && old(Count(h)) > 0)
      ensures forall h :: Total(h) == old(Total(h))
      ensures forall h :: h in disk ==> disk[h] == if backed && old(Count(h)) > 0 then old(main)[h].0 else old(disk)[h]
    {
      if backed {
        var rest, batch := main.Keys, disk;
        while rest != {}
          invariant rest <= main.Keys && main == old(main) && disk == old(disk) && enforceRefs == old(enforceRefs)
          invariant held == old(held)
          invariant forall h :: h in batch <==> h in disk || (h in main.Keys - rest && main[h].1 > 0)
          invariant forall h :: h in batch ==> sha(batch[h]) == h
          invariant forall h :: h in batch ==>
                      batch[h] == if h in main.Keys - rest && main[h].1 > 0 then main[h].0 else disk[h]
          decreases rest
        {
          var h :| h in rest;
          if main[h].1 > 0 { batch := batch[h := main[h].0]; }
          rest := rest - {h};
        }
        ghost var counts, before := main, held;
        held := h => before(h) + CountIn(counts, h);
        disk := batch;
        main := map[];
      }
    }

    method Rollback()
      requires Valid()
      modifies `main
      ensures Valid() && main == map[]
    {
      main := map[];
    }

    /** Drops the entries nothing refers to: no count changes. */
    method Purge()
      requires Valid()
      modifies `main
      ensures Valid()
      ensures forall h :: Count(h) == old(Count(h))
      ensures forall h :: h in main <==> old(Count(h)) > 0
    {
      var rest, kept: Table<H> := main.Keys, map[];
      while rest != {}
        invariant rest <= main.Keys && main == old(main)
        invariant forall h :: h in kept <==> h in main.Keys - rest && main[h].1 > 0
        invariant forall h :: h in kept ==> kept[h] == main[h]
        decreases rest
      {
        var h :| h in rest;
        if main[h].1 > 0 { kept := kept[h := main[h]]; }
        rest := rest - {h};
      }
      main := kept;
    }

    /** MemoryDB::keys: the hashes something refers to. */
    function Keys(): (r: set<H>)
      reads this
      ensures forall h :: h in r <==> Count(h) > 0
    {
      set h | h in main && main[h].1 > 0
    }
  }
}
