/**
 * Producing a block: execute, commitToSeal, uncommitToSeal and sealBlock of class Block, and the
 * validator's replay of a sealed block (libethereum/Block.cpp:124-143, 489-716, 756-884).
 */
module Sealing {
  import opened Nibbles
  import opened BlockTree
  import opened Uncles
  import opened Rewards

  /** A header without its seal fields, which is what hash(WithoutSeal) is the hash of. */
  datatype Header<H, X> = Header(
    env: Env<X>,
    parentHash: H,
    extraData: Bytes,
    gasUsed: nat,
    bloom: H,
    transactionsRoot: H,
    receiptsRoot: H,
    unclesHash: H,
    stateRoot: H)

  /** The three parts of the bytes of a sealed block. */
  datatype SealedBlock<H, T, X, S> = SealedBlock(header: Header<H, X>, seal: S, transactions: seq<T>, uncles: seq<H>)

  /** The header that commitToSeal arrives at. */
  function Filled<H, T, X>(e: Engine<H, T, X>, h: Header<H, X>, previous: H, extra: Bytes, txs: seq<T>,
                           receipts: seq<Receipt<H>>, uncles: seq<H>, state: State<X>): Header<H, X> {
    h.(parentHash := previous, extraData := if |extra| > 32 then extra[..32] else extra,
    gasUsed := GasUsed(receipts), bloom := e.bloom(receipts), transactionsRoot := e.transactionsRoot(txs),
    receiptsRoot := e.receiptsRoot(receipts), unclesHash := e.unclesHash(uncles), stateRoot := e.root(state))
  }

  /** The state of a finished block: its rewards applied, once, and committed. */
  function Finished<H, T, X>(e: Engine<H, T, X>, head: H -> Head<H>, env: Env<X>, s: State<X>,
                             uncles: seq<H>): State<X> {
    e.commit(env.number, Rewarded(e, head, env, s, uncles))
  }

  /** The digests in a header are those of these transactions, run from base, and these uncles. */
  ghost predicate Describes<H, T, X>(e: Engine<H, T, X>, head: H -> Head<H>, h: Header<H, X>, base: State<X>,
                                     txs: seq<T>, uncles: seq<H>) {
    var r := Run(e, h.env, base, txs);
    r.Some? && h == Filled(e, h, h.parentHash, h.extraData, txs, r.value.receipts, uncles,
                           Finished(e, head, h.env, r.value.state, uncles))
  }

  /** A header fit for sealing: it describes the block, and its uncles were picked from the chain. */
  ghost predicate Ready<H(!new), T, X>(e: Engine<H, T, X>, c: Chain<H>, head: H -> Head<H>, previous: H,
                                       h: Header<H, X>, base: State<X>, txs: seq<T>, uncles: seq<H>) {
    h.parentHash == previous && |h.extraData| <= 32 && Describes(e, head, h, base, txs, uncles) &&
    WellFormed(c) && Known(c, previous) && c.head == head && Picked(c, previous, uncles)
  }

  /** What commitToSeal computes: the uncles, the state with the rewards and the header for it all. */
  method Prepare<H(==, !new), T, X>(e: Engine<H, T, X>, c: Chain<H>, previous: H, extra: Bytes, h: Header<H, X>,
                                    txs: seq<T>, receipts: seq<Receipt<H>>, s: State<X>, ghost base: State<X>)
    returns (state: State<X>, header: Header<H, X>, uncles: seq<H>)
    requires WellFormed(c) && Known(c, previous)
    requires Run(e, h.env, base, txs) == Some(Ran(s, receipts))
    ensures Picked(c, previous, uncles)
    ensures state == Finished(e, c.head, h.env, s, uncles)
    ensures header.env == h.env && header.extraData == if |extra| > 32 then extra[..32] else extra
    ensures Ready(e, c, c.head, previous, header, base, txs, uncles)
  {
    uncles := PickUncles(c, previous);
    var rewarded := ApplyRewards(e, c.head, h.env, s, uncles);
    state := e.commit(h.env.number, rewarded);
    header := Filled(e, h, previous, extra, txs, receipts, uncles, state);
  }

  /** What becomes of an execution: it is kept, or undone by dropping the changes not yet committed. */
  datatype Permanence = Committed | Reverted

  class Block<H(==, !new), T(==), X(==), S(==)> {
    const e: Engine<H, T, X>
    const head: H -> Head<H>
    const previous: H
    ghost const base: State<X>
    ghost const env: Env<X>
    var state: State<X>
    var precommit: State<X>
    var committed: bool
    var transactions: seq<T>
    var receipts: seq<Receipt<H>>
    var current: Header<H, X>
    var uncles: seq<H>
    var bytes: Option<SealedBlock<H, T, X, S>>
    /** The chain that the uncles were picked from. */
    ghost var chain: Chain<H>

    /** The state to go on from: as it was before the rewards, if these have been applied. */
    function Pending(): State<X>
      reads this
    {
      if committed then precommit else state
    }

    /**
     * Whatever was done so far, the transactions are those executed since the reset, in order;
     * a committed state is theirs with the rewards applied once; a sealed block holds just that.
     */
    ghost predicate Valid()
      reads this
    {
      current.env == env && env.number == head(previous).number + 1 &&
      Run(e, env, base, transactions) == Some(Ran(Pending(), receipts)) &&
      (committed && bytes.None? ==> state == Finished(e, head, env, precommit, uncles)) &&
      (committed || bytes.Some? ==> Ready(e, chain, head, previous, current, base, transactions, uncles)) &&
      (bytes.Some? ==> state == precommit && bytes.value.header == current
                       && bytes.value.transactions == transactions && bytes.value.uncles == uncles)
    }

    /** A block just reset on top of its parent. */
    constructor (e: Engine<H, T, X>, head: H -> Head<H>, previous: H, base: State<X>, header: Header<H, X>)
      requires header.env.number == head(previous).number + 1
      ensures Valid() && !committed && bytes == None && transactions == []
      ensures this.e == e && this.head == head && this.previous == previous && this.base == base && env == header.env
    {
      this.e, this.head, this.previous, this.base, this.env := e, head, previous, base, header.env;
      state, precommit, committed := base, base, false;
      transactions, receipts, current, uncles, bytes := [], [], header, [], None;
      chain := Chain(previous, previous, head, map[], map[]);
    }

    /** execute, with committed or reverted permanence; false for an exception. */
    method Execute(tx: T, p: Permanence) returns (ok: bool)
      requires Valid()
      modifies this
      ensures Valid() && bytes == old(bytes) && current == old(current) && chain == old(chain)
      ensures ok <==> bytes.None? && e.execute(env, GasUsed(old(receipts)), old(Pending()), tx).Some?
      ensures old(bytes).None? ==> !committed
      ensures ok && p.Committed? ==> transactions == old(transactions) + [tx]
      ensures !ok || p.Reverted? ==> transactions == old(transactions) && Pending() == old(Pending())
      ensures old(bytes).Some? ==> state == old(state) && committed == old(committed)
    {
      if bytes.Some? {
        return false;
      }
      UncommitToSeal();
      var o := e.execute(current.env, GasUsed(receipts), state, tx);
      if o.None? {
        return false;
      }
      if p.Committed? {
        RunStep(e, env, base, transactions, tx);
        state := o.value.state;
        transactions := transactions + [tx];
        receipts := receipts + [o.value.receipt];
      }
      return true;
    }

    /** Takes the rewards back, if they have been applied. */
    method UncommitToSeal()
      requires Valid()
      modifies this`state, this`committed
      ensures Valid() && !committed && state == old(Pending())
    {
      if committed {
        state := precommit;
        committed := false;
      }
    }

    /** commitToSeal, with the uncles picked from the chain; false for the exception on a sealed block. */
    method CommitToSeal(c: Chain<H>, extra: Bytes) returns (ok: bool)
      requires Valid() && WellFormed(c) && Known(c, previous) && c.head == head
      modifies this
      ensures Valid() && transactions == old(transactions) && Pending() == old(Pending()) && bytes == old(bytes)
      ensures ok <==> bytes.None?
      ensures ok ==>
              committed && chain == c && Picked(c, previous, uncles)
              && state == Finished(e, head, env, old(Pending()), uncles)
      ensures !ok ==>
              state == old(state) && committed == old(committed) && current == old(current)
              && uncles == old(uncles) && chain == old(chain)
    {
      if bytes.Some? {
        return false;
      }
      SavePrecommit();
      var finished, header, picked := Prepare(e, c, previous, extra, current, transactions, receipts, state, base);
      Adopt(finished, header, picked, c);
      return true;
    }

    /** The state without rewards goes to precommit, wherever it is. */
    method SavePrecommit()
      requires Valid() && bytes.None?
      modifies this`state, this`precommit, this`committed
      ensures Valid() && !committed && state == precommit == old(Pending())
    {
      if committed {
        UncommitToSeal();
      } else {
        precommit := state;
      }
    }

    method Adopt(finished: State<X>, header: Header<H, X>, picked: seq<H>, ghost c: Chain<H>)
      requires Valid() && bytes.None? && !committed && precommit == state
      requires header.env == env && Ready(e, c, head, previous, header, base, transactions, picked)
      requires finished == Finished(e, head, env, state, picked)
      modifies this`state, this`current, this`uncles, this`chain, this`committed
      ensures Valid() && committed
      ensures state == finished && current == header && uncles == picked && chain == c
    {
      state, current, uncles, chain := finished, header, picked, c;
      committed := true;
    }

    /** sealBlock: only a committed block, and only under the header that was committed to. */
    method SealBlock(header: Header<H, X>, seal: S) returns (ok: bool)
      requires Valid()
      modifies this
      ensures Valid() && transactions == old(transactions) && committed == old(committed) && uncles == old(uncles)
      ensures Pending() == old(Pending()) && current == old(current) && chain == old(chain)
      ensures ok <==> old(committed) && header == old(current)
      ensures ok ==> bytes == Some(SealedBlock(header, seal, transactions, uncles)) && state == old(precommit)
      ensures !ok ==> bytes == old(bytes) && state == old(state)
    {
      if !committed {
        return false;
      }
      if header != current {
        return false;
      }
      bytes := Some(SealedBlock(header, seal, transactions, uncles));
      current := header;
      state := precommit;
      return true;
    }
  }

  // ---------------------------------------------------------------- whole runs

  datatype Op<H, T, X, S> =
    | Execute(tx: T, p: Permanence)
    | Commit(extra: Bytes)
    | Uncommit
    | Seal(header: Header<H, X>, seal: S)

  /** The transaction that an operation adds to the block, if it does; ok is what the operation returned. */
  function Adds<H, T, X, S>(op: Op<H, T, X, S>, ok: bool): seq<T> {
    if op.Execute? && op.p.Committed? && ok then [op.tx] else []
  }

  /** Whether the rewards are applied after an operation. */
  predicate CommittedNext<H, T, X, S>(op: Op<H, T, X, S>, isSealed: bool, committed: bool) {
    match op
    case Execute(_, _) => isSealed && committed
    case Commit(_) => !isSealed || committed
    case Uncommit => false
    case Seal(_, _) => committed
  }

  /** The transactions whose execution succeeded and was kept, in order. */
  function Kept<H, T, X, S>(ops: seq<Op<H, T, X, S>>, oks: seq<bool>): seq<T>
    requires |ops| == |oks|
  {
    if ops == [] then []
    else Kept(ops[..|ops| - 1], oks[..|ops| - 1]) + Adds(ops[|ops| - 1], oks[|ops| - 1])
  }

  /** Whether the block is sealed after a run that began in a state that was or was not. */
  predicate SealedBy<H, T, X, S>(isSealed: bool, ops: seq<Op<H, T, X, S>>, oks: seq<bool>)
    requires |ops| == |oks|
  {
    if ops == [] then isSealed
    else SealedBy(isSealed, ops[..|ops| - 1], oks[..|ops| - 1]) || (ops[|ops| - 1].Seal? && oks[|ops| - 1])
  }

  predicate CommittedBy<H, T, X, S>(isSealed: bool, committed: bool, ops: seq<Op<H, T, X, S>>, oks: seq<bool>)
    requires |ops| == |oks|
  {
    if ops == [] then committed
    else
      CommittedNext(ops[|ops| - 1], SealedBy(isSealed, ops[..|ops| - 1], oks[..|ops| - 1]),
                    CommittedBy(isSealed, committed, ops[..|ops| - 1], oks[..|ops| - 1]))
  }

  /** An execution succeeds on an unsealed block when it does not throw on what the transactions so far lead to. */
  predicate Succeeds<H, T, X>(e: Engine<H, T, X>, env: Env<X>, base: State<X>, txs: seq<T>, isSealed: bool, tx: T) {
    var r := Run(e, env, base, txs);
    !isSealed && r.Some? && e.execute(env, GasUsed(r.value.receipts), r.value.state, tx).Some?
  }

  /** What an operation returns, given the block's transactions and flags before it. */
  predicate Answers<H, T, X, S>(e: Engine<H, T, X>, env: Env<X>, base: State<X>, txs: seq<T>, isSealed: bool,
                                committed: bool, op: Op<H, T, X, S>, ok: bool) {
    match op
    case Execute(tx, _) => ok == Succeeds(e, env, base, txs, isSealed, tx)
    case Commit(_) => ok == !isSealed
    case Uncommit => ok
    case Seal(_, _) => ok ==> committed
  }

  /** The i-th answer of a run that began with these transactions and flags. */
  predicate AnswersAt<H, T, X, S>(e: Engine<H, T, X>, env: Env<X>, base: State<X>, txs: seq<T>, isSealed: bool,
                                  committed: bool, ops: seq<Op<H, T, X, S>>, oks: seq<bool>, i: nat)
    requires i < |ops| == |oks|
  {
    Answers(e, env, base, txs + Kept(ops[..i], oks[..i]), SealedBy(isSealed, ops[..i], oks[..i]),
            CommittedBy(isSealed, committed, ops[..i], oks[..i]), ops[i], oks[i])
  }

  /** Every answer of the run is the one its place calls for. */
  ghost predicate Answered<H, T, X, S>(e: Engine<H, T, X>, env: Env<X>, base: State<X>, txs: seq<T>, isSealed: bool,
                                       committed: bool, ops: seq<Op<H, T, X, S>>, oks: seq<bool>)
    requires |ops| == |oks|
  {
    forall i :: 0 <= i < |ops| ==> AnswersAt(e, env, base, txs, isSealed, committed, ops, oks, i)
  }

  /** One operation. */
  method PerformOne<H(==, !new), T(==), X(==), S(==)>(b: Block<H, T, X, S>, op: Op<H, T, X, S>, c: Chain<H>)
    returns (ok: bool)
    requires b.Valid() && WellFormed(c) && Known(c, b.previous) && c.head == b.head
    modifies b
    ensures b.Valid() && b.transactions == old(b.transactions) + Adds(op, ok)
    ensures b.bytes.Some? <==> old(b.bytes.Some?) || (op.Seal? && ok)
    ensures b.committed <==> CommittedNext(op, old(b.bytes.Some?), old(b.committed))
    ensures Answers(b.e, b.env, b.base, old(b.transactions), old(b.bytes.Some?), old(b.committed), op, ok)
    ensures op.Seal? ==> (ok <==> old(b.committed) && op.header == old(b.current))
    ensures op.Commit? && ok ==> Picked(c, b.previous, b.uncles)
  {
    match op
    case Execute(tx, p) => ok := b.Execute(tx, p);
    case Commit(extra) => ok := b.CommitToSeal(c, extra);
    case Uncommit =>
      b.UncommitToSeal();
      ok := true;
    case Seal(header, seal) => ok := b.SealBlock(header, seal);
  }

  /**
   * Any sequence of operations, while the chain grows as it likes. The answers of the operations
   * decide the transactions of the block: those whose execution succeeded and was kept, in order;
   * and the operations before it decide each answer. At the end a committed state is the state
   * that the transactions lead to with the rewards applied exactly once, however often it was
   * committed, and any other state is the one they lead to without.
   */
  method Perform<H(==, !new), T(==), X(==), S(==)>(b: Block<H, T, X, S>, ops: seq<Op<H, T, X, S>>,
                                                   chains: seq<Chain<H>>)
    returns (oks: seq<bool>)
    requires b.Valid() && |chains| == |ops|
    requires forall i :: 0 <= i < |chains| ==>
                           WellFormed(chains[i]) && Known(chains[i], b.previous) && chains[i].head == b.head
    modifies b
    ensures b.Valid() && |oks| == |ops| && b.transactions == old(b.transactions) + Kept(ops, oks)
    ensures b.bytes.Some? <==> SealedBy(old(b.bytes.Some?), ops, oks)
    ensures b.committed <==> CommittedBy(old(b.bytes.Some?), old(b.committed), ops, oks)
    ensures Answered(b.e, b.env, b.base, old(b.transactions), old(b.bytes.Some?), old(b.committed), ops, oks)
    ensures Run(b.e, b.env, b.base, b.transactions).Some?
    ensures var reached := Run(b.e, b.env, b.base, b.transactions).value.state;
            b.state == if b.bytes.None? && b.committed then Finished(b.e, b.head, b.env, reached, b.uncles) else reached
  {
    oks := [];
    ghost var txs, isSealed, committed := b.transactions, b.bytes.Some?, b.committed;
    for i := 0 to |ops|
      invariant b.Valid() && |oks| == i && b.transactions == txs + Kept(ops[..i], oks)
      invariant b.bytes.Some? <==> SealedBy(isSealed, ops[..i], oks)
      invariant b.committed <==> CommittedBy(isSealed, committed, ops[..i], oks)
      invariant Answered(b.e, b.env, b.base, txs, isSealed, committed, ops[..i], oks)
    {
      var ok := PerformOne(b, ops[i], chains[i]);
      assert ops[..i + 1] == ops[..i] + [ops[i]];
      OneMore(b.e, b.env, b.base, txs, isSealed, committed, ops[..i], oks, ops[i], ok);
      oks := oks + [ok];
    }
    assert ops[..|ops|] == ops;
  }

  /** What one more operation and its answer add to a run. */
  lemma OneMore<H, T, X, S>(e: Engine<H, T, X>, env: Env<X>, base: State<X>, txs: seq<T>, isSealed: bool,
                            committed: bool, ops: seq<Op<H, T, X, S>>, oks: seq<bool>, op: Op<H, T, X, S>, ok: bool)
    requires |ops| == |oks| && Answered(e, env, base, txs, isSealed, committed, ops, oks)
    requires Answers(e, env, base, txs + Kept(ops, oks), SealedBy(isSealed, ops, oks),
                     CommittedBy(isSealed, committed, ops, oks), op, ok)
    ensures txs + Kept(ops + [op], oks + [ok]) == (txs + Kept(ops, oks)) + Adds(op, ok)
    ensures SealedBy(isSealed, ops + [op], oks + [ok]) <==> SealedBy(isSealed, ops, oks) || (op.Seal? && ok)
    ensures CommittedBy(isSealed, committed, ops + [op], oks + [ok]) <==>
            CommittedNext(op, SealedBy(isSealed, ops, oks), CommittedBy(isSealed, committed, ops, oks))
    ensures Answered(e, env, base, txs, isSealed, committed, ops + [op], oks + [ok])
  {
    var more, answers := ops + [op], oks + [ok];
    assert more[..|ops|] == ops && answers[..|ops|] == oks;
    AnswersOn(e, env, base, txs, isSealed, committed, ops, oks, more, answers);
    assert AnswersAt(e, env, base, txs, isSealed, committed, more, answers, |ops|);
  }

  /** The answers so far stand when one more is added. */
  lemma AnswersOn<H, T, X, S>(e: Engine<H, T, X>, env: Env<X>, base: State<X>, txs: seq<T>, isSealed: bool,
                              committed: bool, before: seq<Op<H, T, X, S>>, oks: seq<bool>, ops: seq<Op<H, T, X, S>>,
                              more: seq<bool>)
    requires |before| == |oks| && |ops| == |more| && before <= ops && oks <= more
    requires forall j :: 0 <= j < |before| ==> AnswersAt(e, env, base, txs, isSealed, committed, before, oks, j)
    ensures forall j :: 0 <= j < |before| ==> AnswersAt(e, env, base, txs, isSealed, committed, ops, more, j)
  {
    forall j | 0 <= j < |before| ensures AnswersAt(e, env, base, txs, isSealed, committed, ops, more, j) {
      assert AnswersAt(e, env, base, txs, isSealed, committed, before, oks, j);
      assert before[..j] == ops[..j] && oks[..j] == more[..j];
    }
  }

  // ---------------------------------------------------------------- the validator

  datatype EnactFault =
    | TransactionFailed
    | InvalidReceiptsStateRoot
    | InvalidLogBloom
    | BadUncles(why: Fault)
    | InvalidStateRoot
    | InvalidGasUsed

  /**
   * What enact asks of a block on top of the state of its parent. A state root equal to the
   * parent's is let through whatever the state is.
   */
  ghost predicate Acceptable<H(!new), T, X>(e: Engine<H, T, X>, d: Chain<H>, base: State<X>, previousRoot: H,
                                            hash: H, h: Header<H, X>, txs: seq<T>, uncles: seq<H>) {
    var r := Run(e, h.env, base, txs);
    r.Some? && h.receiptsRoot == e.receiptsRoot(r.value.receipts) && h.bloom == e.bloom(r.value.receipts)
    && Citable(d, hash, h.parentHash, h.env.number, uncles)
    && (h.stateRoot == previousRoot || h.stateRoot == e.root(Finished(e, d.head, h.env, r.value.state, uncles)))
    && h.gasUsed == GasUsed(r.value.receipts)
  }

  /** The replay of the transactions. */
  method Replay<H, T, X>(e: Engine<H, T, X>, env: Env<X>, base: State<X>, txs: seq<T>) returns (r: Option<Ran<H, X>>)
    ensures r == Run(e, env, base, txs)
  {
    var state, receipts := base, [];
    for i := 0 to |txs|
      invariant Run(e, env, base, txs[..i]) == Some(Ran(state, receipts))
    {
      RunStep(e, env, base, txs[..i], txs[i]);
      assert txs[..i] + [txs[i]] == txs[..i + 1];
      var o := e.execute(env, GasUsed(receipts), state, txs[i]);
      if o.None? {
        if Run(e, env, base, txs).Some? {
          RunPrefix(e, env, base, txs, i + 1);
        }
        return None;
      }
      state, receipts := o.value.state, receipts + [o.value.receipt];
    }
    assert txs[..|txs|] == txs;
    return Some(Ran(state, receipts));
  }

  /** enact accepts exactly the acceptable blocks and ends in their finished state. */
  method Enact<H(==, !new), T, X>(e: Engine<H, T, X>, d: Chain<H>, base: State<X>, previousRoot: H,
                                  hash: H, h: Header<H, X>, txs: seq<T>, uncles: seq<H>)
    returns (r: Option<EnactFault>, state: State<X>)
    requires WellFormed(d) && Known(d, h.parentHash)
    ensures r.None? <==> Acceptable(e, d, base, previousRoot, hash, h, txs, uncles)
    ensures r.None? ==> state == Finished(e, d.head, h.env, Run(e, h.env, base, txs).value.state, uncles)
    ensures r == Some(TransactionFailed) <==> Run(e, h.env, base, txs).None?
    ensures r.Some? && r.value.BadUncles? ==> !Citable(d, hash, h.parentHash, h.env.number, uncles)
  {
    state := base;
    var ran := Replay(e, h.env, base, txs);
    if ran.None? {
      return Some(TransactionFailed), state;
    }
    var receipts := ran.value.receipts;
    state := ran.value.state;
    if e.receiptsRoot(receipts) != h.receiptsRoot {
      return Some(InvalidReceiptsStateRoot), state;
    }
    if h.bloom != e.bloom(receipts) {
      return Some(InvalidLogBloom), state;
    }
    var fault, rewarded := EnactUncles(d, hash, h.parentHash, h.env.number, uncles);
    if fault.Some? {
      return Some(BadUncles(fault.value)), state;
    }
    state := ApplyRewards(e, d.head, h.env, state, rewarded);
    state := e.commit(h.env.number, state);
    if h.stateRoot != previousRoot && h.stateRoot != e.root(state) {
      return Some(InvalidStateRoot), state;
    }
    if h.gasUsed != GasUsed(receipts) {
      return Some(InvalidGasUsed), state;
    }
    return None, state;
  }

  /**
   * Every block that a producer seals, after whatever operations, is accepted by a validator that
   * starts from the same parent state and knows at least the producer's chain.
   */
  lemma SealedAccepted<H(!new), T, X, S>(b: Block<H, T, X, S>, d: Chain<H>, previousRoot: H, hash: H)
    requires b.Valid() && b.bytes.Some?
    requires WellFormed(d) && Extends(d, b.chain) && !Known(b.chain, hash)
    ensures var s := b.bytes.value;
            Acceptable(b.e, d, b.base, previousRoot, hash, s.header, s.transactions, s.uncles)
  {
    PickedAccepted(b.chain, d, b.previous, hash, b.uncles);
  }

  // ---------------------------------------------------------------- a state root that nobody checks

  /** An engine whose state root is the balance of address 7 and whose reward is one. */
  function CountingEngine(): Engine<int, int, int> {
    Engine((env, gas, s, tx) => None, (n, s) => s, s => Balance(s, 7), txs => 0, receipts => 0, receipts => 0,
           uncles => 0, u => 0, n => 1)
  }

  /** An empty block on top of block 4 of the forked chain, by address 7, with the given state root. */
  function EmptyBlock(root: int): Header<int, int> {
    Header(Env(3, 7, 0), 4, [], 0, 0, 0, 0, 0, root)
  }

  /**
   * The reward takes the state root from 0, the parent's, to 1. A header that states 1 is accepted,
   * and so is one that still states 0; any other root is refused.
   */
  lemma StaleRootAccepted(root: int)
    ensures var e, base := CountingEngine(), State(map[], 0);
            e.root(base) == 0 && e.root(Finished(e, ForkedChain().head, EmptyBlock(root).env, base, [])) == 1
    ensures Acceptable(CountingEngine(), ForkedChain(), State(map[], 0), 0, 5, EmptyBlock(root), [], []) <==>
            root == 0 || root == 1
  {
    var e, h := CountingEngine(), EmptyBlock(root);
    var base: State<int> := State(map[], 0);
    assert Run(e, h.env, base, []) == Some(Ran(base, []));
    assert AuthorReward(1, 0) == 1;
    assert Rewarded(e, ForkedChain().head, h.env, base, []) == AddBalance(base, 7, 1);
    assert Balance(AddBalance(base, 7, 1), 7) == 1;
  }
}
