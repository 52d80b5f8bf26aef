/**
 * The state a block works on, transactions executed in order, and the block reward
 * (libethereum/Block.cpp:683-716). Executing one transaction, committing a state and the digests
 * in a header are arbitrary functions.
 */
module Rewards {
  import opened Nibbles
  import opened BlockTree
  import opened EthashHeader

  type Address = nat

  /** Balances, and whatever else a state holds; an address without an entry has no account. */
  datatype State<X> = State(balances: map<Address, U256>, rest: X)

  /** The part of a header that transactions see. */
  datatype Env<X> = Env(number: nat, author: Address, rest: X)

  datatype Receipt<H> = Receipt(cumulativeGas: nat, content: H)

  datatype Outcome<H, X> = Outcome(state: State<X>, receipt: Receipt<H>)

  /**
   * The code a block calls: execute (None is its exception), State::commit for a block number,
   * the digests of a header, the author of an uncle and the block reward for a number.
   */
  datatype Engine<!H, !T, !X> = Engine(
    execute: (Env<X>, nat, State<X>, T) -> Option<Outcome<H, X>>,
    commit: (nat, State<X>) -> State<X>,
    root: State<X> -> H,
    transactionsRoot: seq<T> -> H,
    receiptsRoot: seq<Receipt<H>> -> H,
    bloom: seq<Receipt<H>> -> H,
    unclesHash: seq<H> -> H,
    author: H -> Address,
    reward: nat -> U256)

  // ---------------------------------------------------------------- transactions

  datatype Ran<H, X> = Ran(state: State<X>, receipts: seq<Receipt<H>>)

  function GasUsed<H>(receipts: seq<Receipt<H>>): nat {
    if receipts == [] then 0 else receipts[|receipts| - 1].cumulativeGas
  }

  /** The transactions executed in order, each on the state the one before left; None if one of them throws. */
  function Run<H, T, X>(e: Engine<H, T, X>, env: Env<X>, base: State<X>, txs: seq<T>): Option<Ran<H, X>>
  {
    if txs == [] then Some(Ran(base, []))
    else
      var before := Run(e, env, base, txs[..|txs| - 1]);
      if before.None? then None
      else
        var o := e.execute(env, GasUsed(before.value.receipts), before.value.state, txs[|txs| - 1]);
        if o.None? then None else Some(Ran(o.value.state, before.value.receipts + [o.value.receipt]))
  }

  /** One transaction more. */
  lemma RunStep<H, T, X>(e: Engine<H, T, X>, env: Env<X>, base: State<X>, txs: seq<T>, tx: T)
    requires Run(e, env, base, txs).Some?
    ensures var r := Run(e, env, base, txs).value;
            var o := e.execute(env, GasUsed(r.receipts), r.state, tx);
            Run(e, env, base, txs + [tx]) ==
              if o.None? then None else Some(Ran(o.value.state, r.receipts + [o.value.receipt]))
  {
    assert (txs + [tx])[..|txs|] == txs;
  }

  lemma {:induction false} RunPrefix<H, T, X>(e: Engine<H, T, X>, env: Env<X>, base: State<X>, txs: seq<T>, i: nat)
    requires i <= |txs| && Run(e, env, base, txs).Some?
    ensures Run(e, env, base, txs[..i]).Some?
  {
    if i < |txs| {
      RunPrefix(e, env, base, txs[..|txs| - 1], i);
      assert txs[..|txs| - 1][..i] == txs[..i];
    } else {
      assert txs[..i] == txs;
    }
  }

  // ---------------------------------------------------------------- rewards

  function Balance<X>(s: State<X>, a: Address): U256 {
    if a in s.balances then s.balances[a] else 0
  }

  /** addBalance: creates the account when there is none; balances wrap. */
  function AddBalance<X>(s: State<X>, a: Address, amount: U256): State<X> {
    s.(balances := s.balances[a := Wrap(Balance(s, a) + amount)])
  }

  /** An uncle's share of the reward: an eighth less for each generation that it is behind. */
  function UncleReward(reward: U256, uncle: nat, number: nat): U256 {
    Div(Wrap(reward * (8 + uncle - number)), 8)
  }

  /** What the author gets for citing n uncles. */
  function AuthorReward(reward: U256, n: nat): U256 {
    if n == 0 then reward else Wrap(AuthorReward(reward, n - 1) + Div(reward, 32))
  }

  function PayUncles<H, T, X>(e: Engine<H, T, X>, head: H -> Head<H>, number: nat, s: State<X>,
                              uncles: seq<H>): State<X> {
    if uncles == [] then s
    else
      var u := uncles[|uncles| - 1];
      AddBalance(PayUncles(e, head, number, s, uncles[..|uncles| - 1]), e.author(u),
                 UncleReward(e.reward(number), head(u).number, number))
  }

  /** The state with the rewards of a block applied once. */
  function Rewarded<H, T, X>(e: Engine<H, T, X>, head: H -> Head<H>, env: Env<X>, s: State<X>,
                             uncles: seq<H>): State<X> {
    AddBalance(PayUncles(e, head, env.number, s, uncles), env.author, AuthorReward(e.reward(env.number), |uncles|))
  }

  /** applyRewards: pays each uncle's author in turn, then the author of the block. */
  method ApplyRewards<H, T, X>(e: Engine<H, T, X>, head: H -> Head<H>, env: Env<X>, s: State<X>, uncles: seq<H>)
    returns (state: State<X>)
    ensures state == Rewarded(e, head, env, s, uncles)
  {
    state := s;
    var reward := e.reward(env.number);
    var r := reward;
    for i := 0 to |uncles|
      invariant state == PayUncles(e, head, env.number, s, uncles[..i])
      invariant r == AuthorReward(reward, i)
    {
      assert uncles[..i + 1][..i] == uncles[..i];
      state := AddBalance(state, e.author(uncles[i]), UncleReward(reward, head(uncles[i]).number, env.number));
      r := Wrap(r + Div(reward, 32));
    }
    assert uncles[..|uncles|] == uncles;
    state := AddBalance(state, env.author, r);
  }

  /** What one address is owed for the uncles it is the author of. */
  function UncleCredit<H, T, X>(e: Engine<H, T, X>, head: H -> Head<H>, number: nat, uncles: seq<H>, a: Address): nat {
    if uncles == [] then 0
    else
      var u := uncles[|uncles| - 1];
      UncleCredit(e, head, number, uncles[..|uncles| - 1], a)
      + if e.author(u) == a then UncleReward(e.reward(number), head(u).number, number) else 0
  }

  lemma WrapBoth(x: int, y: int)
    ensures Wrap(Wrap(x) + Wrap(y)) == Wrap(x + y)
  {
  }

  lemma WrapSum(x: int, y: int)
    ensures Wrap(Wrap(x) + y) == Wrap(x + y)
  {
  }

  lemma {:induction false} PayUnclesBalance<H, T, X>(
    e: Engine<H, T, X>, head: H -> Head<H>, number: nat, s: State<X>, uncles: seq<H>, a: Address)
    ensures Balance(PayUncles(e, head, number, s, uncles), a) ==
            Wrap(Balance(s, a) + UncleCredit(e, head, number, uncles, a))
    ensures PayUncles(e, head, number, s, uncles).rest == s.rest
  {
    if uncles != [] {
      var before := uncles[..|uncles| - 1];
      var u := uncles[|uncles| - 1];
      PayUnclesBalance(e, head, number, s, before, a);
      WrapSum(Balance(s, a) + UncleCredit(e, head, number, before, a),
              UncleReward(e.reward(number), head(u).number, number));
    }
  }

  lemma {:induction false} AuthorRewardIs(reward: U256, n: nat)
    ensures AuthorReward(reward, n) == Wrap(reward + n * Div(reward, 32))
  {
    if n > 0 {
      AuthorRewardIs(reward, n - 1);
      OneMore(reward, n - 1, Div(reward, 32), AuthorReward(reward, n - 1));
    }
  }

  lemma OneMore(reward: int, n: nat, share: nat, sum: U256)
    requires sum == Wrap(reward + n * share)
    ensures Wrap(sum + share) == Wrap(reward + (n + 1) * share)
  {
    WrapSum(reward + n * share, share);
    assert (n + 1) * share == n * share + share;
  }

  /**
   * Every address ends with what it had, its uncle credits, and, if it is the author, the reward and
   * a thirty-second of it for each uncle; nothing else in the state changes.
   */
  lemma RewardedBalance<H, T, X>(e: Engine<H, T, X>, head: H -> Head<H>, env: Env<X>, s: State<X>, uncles: seq<H>,
                                 a: Address)
    ensures var reward := e.reward(env.number);
            Balance(Rewarded(e, head, env, s, uncles), a)
            == Wrap(Balance(s, a) + UncleCredit(e, head, env.number, uncles, a)
                    + if a == env.author then reward + |uncles| * Div(reward, 32) else 0)
    ensures Rewarded(e, head, env, s, uncles).rest == s.rest
  {
    var n, reward := env.number, e.reward(env.number);
    PayUnclesBalance(e, head, n, s, uncles, a);
    AuthorRewardIs(reward, |uncles|);
    Settle(s, PayUncles(e, head, n, s, uncles), UncleCredit(e, head, n, uncles, a), env.author,
           AuthorReward(reward, |uncles|), reward + |uncles| * Div(reward, 32), a);
  }

  lemma Settle<X>(s: State<X>, paid: State<X>, credit: nat, author: Address, amount: U256, due: int, a: Address)
    requires Balance(paid, a) == Wrap(Balance(s, a) + credit) && amount == Wrap(due)
    ensures Balance(AddBalance(paid, author, amount), a) ==
            Wrap(Balance(s, a) + credit + if a == author then due else 0)
  {
    WrapBoth(Balance(s, a) + credit, due);
  }
}
