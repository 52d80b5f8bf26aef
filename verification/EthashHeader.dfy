/**
 * The header fields a block producer derives from the parent and the checks a validator makes of
 * them (libethashseal/Ethash.cpp:84-236). Arithmetic on u256 wraps, as boost's unchecked integers
 * do; bigint does not.
 */
module EthashHeader {
  import opened Nibbles
  import EthashWords

  const INVALID256: int := 0xffffffffffffffff_ffffffffffffffff_ffffffffffffffff_ffffffffffffffff

  type U256 = x: int | 0 <= x <= INVALID256

  /** Unsigned arithmetic of 256 bits. */
  function Wrap(x: int): U256 {
    x % 0x1_0000000000000000_0000000000000000_0000000000000000_0000000000000000
  }

  /** Division of u256. */
  function Div(a: U256, d: int): U256
    requires d > 0
  {
    QuotientAtMost(a, d);
    a / d
  }

  datatype Params = Params(
    minGasLimit: U256, maxGasLimit: U256, gasLimitBoundDivisor: U256,
    minimumDifficulty: U256, difficultyBoundDivisor: U256, durationLimit: U256,
    homesteadForkBlock: U256, byzantiumForkBlock: U256)

  /** The fields the rules read; hasUncles says whether the uncles hash is not that of the empty list. */
  datatype Header = Header(number: nat, timestamp: int, difficulty: U256, gasLimit: U256, gasUsed: U256,
                           hasUncles: bool)

  /** Boost divides by throwing on zero; the chain parameters keep both divisors positive. */
  predicate ValidParams(p: Params) {
    p.gasLimitBoundDivisor > 0 && p.difficultyBoundDivisor > 0
  }

  // ---------------------------------------------------------------- gas limit

  function ChildGasLimit(p: Params, parent: Header, target: U256): U256
    requires ValidParams(p)
  {
    Chosen(parent.gasLimit, Floor(target), Div(parent.gasLimit, p.gasLimitBoundDivisor), Share(p, parent))
  }

  /** The gas limit conditions of verify: the absolute ones, and those against the parent. */
  predicate GasLimitAccepted(p: Params, limit: U256, parent: Header)
    requires ValidParams(p)
  {
    var step := parent.gasLimit / p.gasLimitBoundDivisor;
    p.minGasLimit <= limit <= p.maxGasLimit
    && Wrap(parent.gasLimit - step) < limit < Wrap(parent.gasLimit + step)
  }

  /** The share of a full parent's gas that the rule adds stays below twice the permitted step. */
  lemma UsageShare(limit: nat, used: nat, divisor: nat)
    requires divisor > 0 && used <= limit && limit / divisor >= 3
    ensures used * 6 / 5 / divisor + 2 <= 2 * (limit / divisor)
  {
    var q, r := limit / divisor, limit % divisor;
    var x := used * 6 / 5;
    assert limit == q * divisor + r && r < divisor;
    assert 5 * x <= 6 * (q * divisor + r);
    var y := x / divisor;
    assert y * divisor <= x by { assert x == y * divisor + x % divisor; }
    if y + 2 > 2 * q {
      assert y >= 2 * q - 1;
      Scaled(y, 2 * q - 1, divisor);
      assert (2 * q - 1) * divisor == 2 * (q * divisor) - divisor;
      assert 10 * (q * divisor) - 5 * divisor <= 6 * (q * divisor) + 6 * r;
      Scaled(q, 3, divisor);
      assert false;
    }
  }

  lemma Scaled(a: int, b: int, d: nat)
    requires a >= b
    ensures a * d >= b * d
  {
  }

  lemma DivisionGrows(a: nat, b: nat, d: nat)
    requires a <= b && d > 0
    ensures a / d <= b / d
  {
    var x, y := a / d, b / d;
    assert a == x * d + a % d && b == y * d + b % d;
    assert (y + 1) * d == y * d + d;
    assert x >= y + 1 ==> x * d >= (y + 1) * d by {
      if x >= y + 1 {
        Scaled(x, y + 1, d);
      }
    }
  }

  lemma WrapsTo(x: int)
    requires 0 <= x <= INVALID256
    ensures Wrap(x) == x
  {
  }

  /** The rule of ChildGasLimit on plain numbers: step is the permitted step, share the part for gas used. */
  function Chosen(limit: U256, floor: U256, step: int, share: U256): U256 {
    if limit < floor then
      var up := Wrap(Wrap(limit + step) - 1);
      if floor < up then floor else up
    else
      var down := Wrap(Wrap(Wrap(limit - step) + 1) + share);
      if floor < down then down else floor
  }

  /**
   * When the chosen limit is strictly within one step of the parent's. Usually that needs a step,
   * and, for a limit that is to fall, a share that leaves room. The other cases are those in which
   * a sum wraps: the lowered limit, and the raised one, which then needs a divisor of one.
   */
  predicate StepOk(limit: U256, floor: U256, step: int, share: U256) {
    if limit + step <= INVALID256 then
      step >= 1 &&
      (limit < floor ||
       if limit - step + 1 + share <= INVALID256 then share + 2 <= 2 * step else limit - step < floor)
    else
      var top := limit + step - INVALID256 - 1;
      step == limit && if limit < floor then top >= 2 else floor < top && share + 1 < top
  }

  /** Exactly when, for every parent: a step is the whole limit or at most half of it. */
  lemma ChosenIff(limit: U256, floor: U256, step: int, share: U256)
    requires 0 <= step <= limit && (step == limit || 2 * step <= limit) && 5 * share <= INVALID256
    ensures limit - step < Chosen(limit, floor, step, share) < Wrap(limit + step) <==> StepOk(limit, floor, step, share)
  {
    WrapsTo(limit - step);
    if limit + step <= INVALID256 {
      WrapsTo(limit + step);
      ChosenUnwrapped(limit, floor, step, share);
    } else {
      ChosenWrapped(limit, floor, step, share);
    }
  }

  lemma ChosenUnwrapped(limit: U256, floor: U256, step: int, share: U256)
    requires 0 <= step <= limit && 5 * share <= INVALID256 && limit + step <= INVALID256
    ensures limit - step < Chosen(limit, floor, step, share) < limit + step <==> StepOk(limit, floor, step, share)
  {
    if limit < floor {
      WrapsTo(limit + step);
      if step > 0 { WrapsTo(limit + step - 1); }
    } else {
      LoweredTo(limit, step, share);
    }
  }

  /** The lowered limit with the share added, wrapped at most once. */
  lemma LoweredTo(limit: U256, step: int, share: U256)
    requires 0 <= step <= limit && 5 * share <= INVALID256
    ensures var down := limit - step + 1 + share;
            Wrap(Wrap(Wrap(limit - step) + 1) + share) == if down <= INVALID256 then down else down - INVALID256 - 1
  {
    var down := limit - step + 1 + share;
    WrapsTo(limit - step);
    if limit - step < INVALID256 { WrapsTo(limit - step + 1); } else { WrapsOnce(limit - step + 1); WrapsTo(share); }
    if down <= INVALID256 { WrapsTo(down); } else { WrapsOnce(down); }
  }

  lemma ChosenWrapped(limit: U256, floor: U256, step: int, share: U256)
    requires 0 <= step <= limit && (step == limit || 2 * step <= limit) && 5 * share <= INVALID256
             && limit + step > INVALID256
    ensures limit - step < Chosen(limit, floor, step, share) < Wrap(limit + step) <==> StepOk(limit, floor, step, share)
  {
    WrapsOnce(limit + step);
    var top := limit + step - INVALID256 - 1;
    if step == limit {
      if top > 0 { WrapsTo(top - 1); }
      WrapsTo(limit - step);
      WrapsTo(1);
      WrapsTo(1 + share);
    }
  }

  lemma WrapsOnce(x: int)
    requires INVALID256 < x <= 2 * INVALID256
    ensures Wrap(x) == x - INVALID256 - 1
  {
  }

  /** The part of the parent's gas that the rule adds, and the floor it keeps to. */
  function Share(p: Params, parent: Header): U256
    requires ValidParams(p)
  {
    Div(Div(Wrap(parent.gasUsed * 6), 5), p.gasLimitBoundDivisor)
  }

  function Floor(target: U256): U256 {
    if target == INVALID256 then 3141562 else target
  }

  /** The limit a producer picks is accepted exactly under these conditions on the parent and the parameters. */
  lemma ChildGasLimitIff(p: Params, parent: Header, target: U256)
    requires ValidParams(p)
    ensures GasLimitAccepted(p, ChildGasLimit(p, parent, target), parent) <==>
            StepOk(parent.gasLimit, Floor(target), Div(parent.gasLimit, p.gasLimitBoundDivisor), Share(p, parent))
            && p.minGasLimit <= ChildGasLimit(p, parent, target) <= p.maxGasLimit
  {
    var limit, d := parent.gasLimit, p.gasLimitBoundDivisor;
    QuotientAtMost(limit, d);
    HalfOrWhole(limit, d);
    ShareBound(p, parent);
    ChosenIff(limit, Floor(target), Div(limit, d), Share(p, parent));
    WrapsTo(limit - Div(limit, d));
  }

  /**
   * The same on the inputs alone, where no sum wraps: there is a step; and a limit that is to rise
   * finds the floor or its own raise between the absolute limits, while one that is to fall leaves
   * room for the share and has floor and lowered limit below the maximum, one of them not below the minimum.
   */
  lemma ChildGasLimitInputs(p: Params, parent: Header, target: U256)
    requires ValidParams(p)
    requires var step, share := Div(parent.gasLimit, p.gasLimitBoundDivisor), Share(p, parent);
             parent.gasLimit + step <= INVALID256 && parent.gasLimit - step + 1 + share <= INVALID256
    ensures var limit, floor := parent.gasLimit, Floor(target);
            var step, share := Div(limit, p.gasLimitBoundDivisor), Share(p, parent);
            GasLimitAccepted(p, ChildGasLimit(p, parent, target), parent) <==>
            step >= 1 &&
            if limit < floor then
              p.minGasLimit <= floor && p.minGasLimit <= limit + step - 1
              && (floor <= p.maxGasLimit || limit + step - 1 <= p.maxGasLimit)
            else
              share + 2 <= 2 * step && (p.minGasLimit <= floor || p.minGasLimit <= limit - step + 1 + share)
              && floor <= p.maxGasLimit && limit - step + 1 + share <= p.maxGasLimit
  {
    var limit, step, share := parent.gasLimit, Div(parent.gasLimit, p.gasLimitBoundDivisor), Share(p, parent);
    ChildGasLimitIff(p, parent, target);
    QuotientAtMost(limit, p.gasLimitBoundDivisor);
    ShareBound(p, parent);
    ChosenFrom(limit, Floor(target), step, share);
  }

  lemma ChosenFrom(limit: U256, floor: U256, step: int, share: U256)
    requires 0 <= step <= limit && 5 * share <= INVALID256
    requires limit + step <= INVALID256 && limit - step + 1 + share <= INVALID256
    ensures limit < floor && step >= 1 ==>
              Chosen(limit, floor, step, share) == if floor < limit + step - 1 then floor else limit + step - 1
    ensures limit >= floor ==>
              Chosen(limit, floor, step, share) ==
              if floor < limit - step + 1 + share then limit - step + 1 + share else floor
  {
    WrapsTo(limit + step);
    if step >= 1 { WrapsTo(limit + step - 1); }
    LoweredTo(limit, step, share);
  }

  lemma HalfOrWhole(a: nat, d: nat)
    requires d > 0
    ensures a / d == a || 2 * (a / d) <= a
  {
    if d > 1 {
      var q := a / d;
      assert a == q * d + a % d;
      assert q >= 0 by { DivisionGrows(0, a, d); }
      Scaled(d, 2, q);
    } else {
      assert a / 1 == a;
    }
  }

  lemma ShareBound(p: Params, parent: Header)
    requires ValidParams(p)
    ensures 5 * Share(p, parent) <= INVALID256
  {
    var x := Div(Wrap(parent.gasUsed * 6), 5);
    QuotientAtMost(x, p.gasLimitBoundDivisor);
  }

  /**
   * The limit a producer picks is one that a validator accepts, for every parent within its own
   * limit and with a step of at least three. Nothing is asked about the product gasUsed * 6: when
   * it wraps, the share it contributes only gets smaller.
   */
  lemma ChildGasLimitAccepted(p: Params, parent: Header, target: U256)
    requires ValidParams(p) && parent.gasUsed <= parent.gasLimit
    requires parent.gasLimit / p.gasLimitBoundDivisor >= 3
    requires p.minGasLimit <= parent.gasLimit && p.minGasLimit <= Floor(target)
    requires parent.gasLimit + parent.gasLimit / p.gasLimitBoundDivisor <= p.maxGasLimit
    ensures GasLimitAccepted(p, ChildGasLimit(p, parent, target), parent)
  {
    var limit, d := parent.gasLimit, p.gasLimitBoundDivisor;
    UsageShare(limit, parent.gasUsed, d);
    DivisionGrows(Wrap(parent.gasUsed * 6) / 5, parent.gasUsed * 6 / 5, d);
    QuotientAtMost(limit, d);
    ChildGasLimitIff(p, parent, target);
    ChosenAtLeast(limit, Floor(target), Div(limit, d), Share(p, parent));
  }

  lemma ChosenAtLeast(limit: U256, floor: U256, step: int, share: U256)
    requires 1 <= step <= limit && share + 2 <= 2 * step && limit + step <= INVALID256
    ensures Chosen(limit, floor, step, share) >= if limit < floor then limit else floor
    ensures Chosen(limit, floor, step, share) <= limit + step
  {
    WrapsTo(limit + step);
    WrapsTo(limit + step - 1);
    WrapsTo(limit - step);
    WrapsTo(limit - step + 1);
    WrapsTo(limit - step + 1 + share);
  }

  lemma QuotientAtMost(a: nat, d: nat)
    requires d > 0
    ensures 0 <= a / d <= a
  {
    var q := a / d;
    assert a == q * d + a % d;
    assert q >= 0 by { DivisionGrows(0, a, d); }
    Scaled(d, 1, q);
  }

  /** With a step of two the rule can overshoot: a full parent of 3071 gas gets a refused child. */
  lemma StepOfTwoRefused(p: Params, parent: Header)
    requires p.gasLimitBoundDivisor == 1024 && p.difficultyBoundDivisor > 0
    requires parent.gasLimit == 3071 && parent.gasUsed == 3071
    ensures Div(parent.gasLimit, p.gasLimitBoundDivisor) == 2
    ensures !GasLimitAccepted(p, ChildGasLimit(p, parent, 0), parent)
  {
    assert Wrap(Wrap(Wrap(3071 - 2) + 1) + Wrap(3071 * 6) / 5 / 1024) == 3073;
  }

  // ---------------------------------------------------------------- difficulty

  /** Division of bigint: towards zero. */
  function Truncated(a: int, b: nat): int
    requires b > 0
  {
    if a >= 0 then a / b else -((-a) / b)
  }

  function Max(a: int, b: int): int { if a < b then b else a }

  /** The difficulty before the ice age: the parent's, adjusted by the time the block took. */
  function Target(p: Params, bi: Header, parent: Header): int
    requires ValidParams(p)
  {
    var d := parent.difficulty;
    if bi.number < p.homesteadForkBlock then
      if bi.timestamp >= Wrap(parent.timestamp + p.durationLimit)
      then Wrap(d - d / p.difficultyBoundDivisor)
      else Wrap(d + d / p.difficultyBoundDivisor)
    else
      d + d / 2048 * Adjustment(p, bi, parent)
  }

  /** The adjustment factor of Homestead and of Byzantium, never below -99. */
  function Adjustment(p: Params, bi: Header, parent: Header): int {
    var diff := bi.timestamp - parent.timestamp;
    if bi.number < p.byzantiumForkBlock then Max(1 - Truncated(diff, 10), -99)
    else Max((if parent.hasUncles then 2 else 1) - Truncated(diff, 9), -99)
  }

  /** The block number the ice age counts from, cut to 32 bits. */
  function IceAge(p: Params, bi: Header, parent: Header): nat {
    var n := (parent.number + 1) % 0x1_0000_0000;
    if bi.number < p.byzantiumForkBlock then n else if n >= 3000000 then n - 3000000 else 0
  }

  /** At least the minimum, at most what a u256 holds. */
  function Clamped(least: U256, o: int): (r: U256)
    ensures least <= r
  {
    if o < least then least else if o < INVALID256 then o else INVALID256
  }

  /** calculateDifficulty; None is the exception for a genesis block. */
  function CalculateDifficulty(p: Params, bi: Header, parent: Header): (r: Option<U256>)
    requires ValidParams(p)
    ensures r.None? <==> bi.number == 0
    ensures r.Some? ==> p.minimumDifficulty <= r.value
  {
    if bi.number == 0 then None
    else
      Some(Clamped(p.minimumDifficulty, Target(p, bi, parent) + Ice(p, bi, parent)))
  }

  lemma TruncatedGrows(a: int, b: int, d: nat)
    requires a <= b && d > 0
    ensures Truncated(a, d) <= Truncated(b, d)
  {
    if 0 <= a {
      DivisionGrows(a, b, d);
    } else if b < 0 {
      DivisionGrows(-b, -a, d);
    } else {
      DivisionGrows(0, -a, d);
      DivisionGrows(0, b, d);
    }
  }

  /**
   * A slower block never has a higher difficulty than a faster one at the same place. From
   * Homestead on this is unconditional; before, the raised difficulty must not wrap.
   */
  lemma SlowerIsEasier(p: Params, fast: Header, slow: Header, parent: Header)
    requires ValidParams(p) && fast.number == slow.number != 0 && fast.timestamp <= slow.timestamp
    requires fast.number >= p.homesteadForkBlock
             || parent.difficulty + parent.difficulty / p.difficultyBoundDivisor <= INVALID256
    ensures CalculateDifficulty(p, slow, parent).value <= CalculateDifficulty(p, fast, parent).value
  {
    if fast.number < p.homesteadForkBlock {
      FrontierFalls(p, fast, slow, parent);
    } else {
      AdjustmentFalls(p, fast, slow, parent);
      Scaled(Adjustment(p, fast, parent), Adjustment(p, slow, parent), parent.difficulty / 2048);
    }
    assert Target(p, slow, parent) <= Target(p, fast, parent);
  }

  lemma FrontierFalls(p: Params, fast: Header, slow: Header, parent: Header)
    requires ValidParams(p) && fast.timestamp <= slow.timestamp
    requires fast.number == slow.number < p.homesteadForkBlock
    requires parent.difficulty + parent.difficulty / p.difficultyBoundDivisor <= INVALID256
    ensures Target(p, slow, parent) <= Target(p, fast, parent)
  {
    var d := parent.difficulty;
    var step := d / p.difficultyBoundDivisor;
    QuotientAtMost(d, p.difficultyBoundDivisor);
    WrapsTo(d - step);
    WrapsTo(d + step);
  }

  /** The difficulty before Homestead for a block in time, and for a late one. */
  function Raised(p: Params, parent: Header): U256
    requires ValidParams(p)
  {
    Wrap(parent.difficulty + Div(parent.difficulty, p.difficultyBoundDivisor))
  }

  function Lowered(p: Params, parent: Header): U256
    requires ValidParams(p)
  {
    Wrap(parent.difficulty - Div(parent.difficulty, p.difficultyBoundDivisor))
  }

  /** What the ice age adds. */
  function Ice(p: Params, bi: Header, parent: Header): nat {
    var periods := IceAge(p, bi, parent) / 100000;
    if periods > 1 then EthashWords.Pow2(periods - 2) else 0
  }

  /**
   * The raised difficulty stays above the lowered one exactly when it does not wrap, or there is nothing
   * left to lower.
   */
  lemma RaisedIff(p: Params, parent: Header)
    requires ValidParams(p)
    ensures Lowered(p, parent) <= Raised(p, parent) <==>
            parent.difficulty + Div(parent.difficulty, p.difficultyBoundDivisor) <= INVALID256
            || p.difficultyBoundDivisor == 1
  {
    var d, step := parent.difficulty, Div(parent.difficulty, p.difficultyBoundDivisor);
    QuotientAtMost(d, p.difficultyBoundDivisor);
    HalfOrLess(d, p.difficultyBoundDivisor);
    WrapsTo(d - step);
    if d + step <= INVALID256 { WrapsTo(d + step); } else { WrapsOnce(d + step); }
  }

  lemma HalfOrLess(a: nat, d: nat)
    requires d > 0
    ensures if d == 1 then a / d == a else 2 * (a / d) <= a
  {
    HalfOrWhole(a, d);
    if d > 1 {
      var q := a / d;
      assert a == q * d + a % d;
      assert q >= 0 by { DivisionGrows(0, a, d); }
      Scaled(d, 2, q);
    }
  }

  /**
   * Before Homestead, a late block is no harder than one in time exactly when the raised difficulty
   * does not wrap, or the divisor is one, or the minimum or the maximum hides that it did.
   */
  lemma FrontierIff(p: Params, fast: Header, slow: Header, parent: Header)
    requires ValidParams(p) && fast.number == slow.number && 0 < fast.number < p.homesteadForkBlock
    requires fast.timestamp < Wrap(parent.timestamp + p.durationLimit) <= slow.timestamp
    ensures CalculateDifficulty(p, slow, parent).value <= CalculateDifficulty(p, fast, parent).value <==>
            parent.difficulty + Div(parent.difficulty, p.difficultyBoundDivisor) <= INVALID256
            || p.difficultyBoundDivisor == 1
            || Lowered(p, parent) + Ice(p, fast, parent) <= p.minimumDifficulty
            || Raised(p, parent) + Ice(p, fast, parent) >= INVALID256
            || p.minimumDifficulty == INVALID256
  {
    assert Target(p, fast, parent) == Raised(p, parent);
    assert Target(p, slow, parent) == Lowered(p, parent);
    assert Ice(p, slow, parent) == Ice(p, fast, parent);
    RaisedIff(p, parent);
    ClampedOrder(p.minimumDifficulty, Lowered(p, parent), Raised(p, parent), Ice(p, fast, parent));
  }

  lemma ClampedOrder(least: U256, a: int, b: int, ice: nat)
    ensures Clamped(least, a + ice) <= Clamped(least, b + ice) <==>
            a <= b || a + ice <= least || b + ice >= INVALID256 || least == INVALID256
  {
  }

  /** Without a wrap that is so; with the largest difficulty there is, it is not. */
  lemma FrontierWraps(p: Params, fast: Header, slow: Header, parent: Header)
    requires p.gasLimitBoundDivisor > 0 && p.difficultyBoundDivisor == 2048 && p.minimumDifficulty == 131072
    requires fast.number == slow.number == 1 < p.homesteadForkBlock && parent.number == 0 && p.byzantiumForkBlock > 1
    requires parent.difficulty == INVALID256
             && fast.timestamp < Wrap(parent.timestamp + p.durationLimit) <= slow.timestamp
    ensures CalculateDifficulty(p, fast, parent).value < CalculateDifficulty(p, slow, parent).value
  {
    FrontierIff(p, fast, slow, parent);
    var step := Div(INVALID256, 2048);
    WrapsOnce(INVALID256 + step);
    WrapsTo(INVALID256 - step);
  }

  lemma AdjustmentFalls(p: Params, fast: Header, slow: Header, parent: Header)
    requires fast.number == slow.number && fast.timestamp <= slow.timestamp
    ensures Adjustment(p, slow, parent) <= Adjustment(p, fast, parent)
  {
    var a, b := fast.timestamp - parent.timestamp, slow.timestamp - parent.timestamp;
    TruncatedGrows(a, b, 10);
    TruncatedGrows(a, b, 9);
  }

  // ---------------------------------------------------------------- producer and validator

  datatype Fault = InvalidDifficulty | InvalidGasLimit | GenesisBlockCannotBeCalculated

  /** The difficulty and gas checks of verify with a parent, in their order; None accepts. */
  function Verify(p: Params, checkNew: bool, bi: Header, parent: Header): Option<Fault>
    requires ValidParams(p)
  {
    if checkNew && bi.difficulty < p.minimumDifficulty then Some(InvalidDifficulty)
    else if checkNew && (bi.gasLimit < p.minGasLimit || bi.gasLimit > p.maxGasLimit) then Some(InvalidGasLimit)
    else
      var expected := CalculateDifficulty(p, bi, parent);
      if expected.None? then Some(GenesisBlockCannotBeCalculated)
      else if bi.difficulty != expected.value then Some(InvalidDifficulty)
      else if !GasLimitAccepted(p, bi.gasLimit, parent) then Some(InvalidGasLimit)
      else None
  }

  /** populateFromParent: number, difficulty and gas limit from the parent, no gas used. */
  function PopulateFromParent(p: Params, bi: Header, parent: Header): Header
    requires ValidParams(p)
  {
    var next := bi.(number := parent.number + 1, gasUsed := 0);
    next.(difficulty := CalculateDifficulty(p, next, parent).value, gasLimit := ChildGasLimit(p, parent, INVALID256))
  }

  /** A header populated from its parent passes every one of these checks. */
  lemma PopulatedAccepted(p: Params, bi: Header, parent: Header, checkNew: bool)
    requires ValidParams(p) && parent.gasUsed <= parent.gasLimit
    requires parent.gasLimit / p.gasLimitBoundDivisor >= 3
    requires p.minGasLimit <= parent.gasLimit && p.minGasLimit <= 3141562
    requires parent.gasLimit + parent.gasLimit / p.gasLimitBoundDivisor <= p.maxGasLimit
    ensures Verify(p, checkNew, PopulateFromParent(p, bi, parent), parent) == None
  {
    ChildGasLimitAccepted(p, parent, INVALID256);
    var next := bi.(number := parent.number + 1, gasUsed := 0);
    var made := PopulateFromParent(p, bi, parent);
    assert CalculateDifficulty(p, made, parent) == CalculateDifficulty(p, next, parent);
  }
}
