/** Concrete inputs for the properties that fail: pools built from the program's own price table. */
module Instances {
  import opened Wrappers
  import opened FullMath
  import opened LiquidityMath
  import opened PoolTypes
  import opened TickGrowth
  import opened TickMath
  import opened Ledger
  import opened Invariants
  import opened PositionLemmas
  import opened Vaults
  import opened PositionSafety
  import opened OpenSafety
  import opened RewardAdmin
  import opened SwapMath
  import opened SwapPath
  import opened SwapLedger
  import opened SwapOutcome
  import opened Machine
  import opened History

  // -----------------------------------------------------------------------------------------
  // Prices around tick 0

  /** The price of tick 1. */
  const PRICE_ONE: nat := 18447666387855957090

  lemma PricesAtZero()
    ensures SqrtPriceAt(0) == Q64 && SqrtPriceAt(1) == PRICE_ONE
  {
    ZeroTakesNoFactor(Q64, 0);
    ZeroTakesNoFactor(Scaled(Q64, 0), 1);
    assert Scaled(Q64, 0) == Factor(0);
    assert (U128_LIMIT - 1) / Factor(0) == PRICE_ONE;
  }

  lemma TablePrices()
    ensures ValidTable(ConcreteTable())
    ensures Price(ConcreteTable(), 0) == Q64 && Price(ConcreteTable(), 1) == PRICE_ONE
  {
    hide SqrtPriceAt;
    PricesAtZero();
    ConcreteTableIsValid();
  }

  // -----------------------------------------------------------------------------------------
  // New pools

  const NO_FEES := AmmConfig(0, 0, 0)

  /** A new pool with tick spacing 1 and nothing in it. */
  ghost function PoolAt(sqrtPrice: nat, tick: int): Ledger {
    var none := RewardInfo(false, 0, 0, 0, 0);
    Ledger(ConcreteTable(), NO_FEES,
           PoolState(1, 0, sqrtPrice, tick, ZERO_FIVE, ZERO_FIVE, ZERO_FIVE, [0, 0], [0, 0], [none, none, none], 0, {}),
           map[], [], [], [0, 0], [0, 0, 0], 1)
  }

  lemma PoolAtIsNew(sqrtPrice: nat, tick: int)
    requires MIN_TICK <= tick < MAX_TICK && Price(ConcreteTable(), tick) <= sqrtPrice < Price(ConcreteTable(), tick + 1)
    ensures ValidTable(ConcreteTable()) && ConfigInv(NO_FEES)
    ensures CreatePool(ConcreteTable(), NO_FEES, 1, sqrtPrice, 0, 1) == Ok(PoolAt(sqrtPrice, tick))
    ensures PoolInv(PoolAt(sqrtPrice, tick))
  {
    hide PoolInv, ConcreteTable, TickAtSqrtPrice, ValidTable;
    TablePrices();
    TickOfPrice(ConcreteTable(), sqrtPrice, tick);
    CreatedPoolInv(ConcreteTable(), NO_FEES, 1, sqrtPrice, 0, 1);
  }

  // -----------------------------------------------------------------------------------------
  // Opening positions in a pool where nothing has happened

  /** No reward runs. */
  lemma NothingToUpdate(pool: PoolState, timestamp: nat)
    requires !pool.rewards[0].initialized && !pool.rewards[1].initialized && !pool.rewards[2].initialized
    ensures UpdateRewardInfos(pool, timestamp) == Ok(pool)
  {
    assert UpdateRewardsFrom(pool, 2, timestamp) == UpdateRewardsFrom(pool, 3, timestamp);
    assert UpdateRewardsFrom(pool, 1, timestamp) == UpdateRewardsFrom(pool, 2, timestamp);
  }

  /** Growth inside a range of a pool in which nothing has grown. */
  lemma NoGrowthInside(lower: TickState, upper: TickState, tickCurrent: int, rewards: Rewards, c: nat)
    requires lower.growthOutside == ZERO_FIVE && upper.growthOutside == ZERO_FIVE && c <= 5
    ensures InsideFrom(lower, upper, tickCurrent, ZERO_FIVE, rewards, c) == Ok(ZERO_FIVE[c..])
    decreases 5 - c
  {
    if c < 5 {
      NoGrowthInside(lower, upper, tickCurrent, rewards, c + 1);
      assert ZERO_FIVE[c] == 0;
      assert InsideChannel(lower, upper, tickCurrent, ZERO_FIVE, rewards, c) == Ok(0);
      assert ZERO_FIVE[c..] == [0] + ZERO_FIVE[c + 1..];
    } else {
      assert ZERO_FIVE[c..] == [];
    }
  }

  lemma NoFeeYet(liquidity: nat)
    ensures ProtocolFee(0, 0, liquidity) == Ok(0)
    ensures forall p: PersonalPosition, c :: 0 <= c < 5 && p == EMPTY_POSITION ==> CreditChannel(p, ZERO_FIVE, c) == Ok(0)
  {
    assert 0 * liquidity == 0;
  }

  /** A change of an empty range in a pool where nothing has grown and no reward runs. */
  lemma QuietMint(l: Ledger, j: nat, liquidity: nat, amount0: int, amount1: int) returns (m: Modified)
    requires j < |l.protocols| && 0 < liquidity < I128_LIMIT
    requires var p := l.protocols[j];
             && MIN_TICK <= p.tickLower < p.tickUpper <= MAX_TICK && |l.table| == MAX_TICK - MIN_TICK + 1
             && p == ProtocolPosition(p.tickLower, p.tickUpper, 0, ZERO_FIVE, [0, 0])
             && TickOf(l.ticks, p.tickLower) == TickState(p.tickLower, 0, 0, ZERO_FIVE)
             && TickOf(l.ticks, p.tickUpper) == TickState(p.tickUpper, 0, 0, ZERO_FIVE)
             && l.pool.liquidity + liquidity < U128_LIMIT
             && GetDeltaAmountsSigned(l.pool.tickCurrent, l.pool.sqrtPrice, p.tickLower, p.tickUpper, Price(l.table, p.tickLower),
                                      Price(l.table, p.tickUpper), liquidity) == Ok((amount0, amount1))
    requires l.pool.growthGlobal == ZERO_FIVE && forall k :: 0 <= k < 3 ==> !l.pool.rewards[k].initialized
    ensures Modifies(l, j, liquidity, l.now, m)
    ensures var p := l.protocols[j];
            m == Modified(l.pool.(liquidity := l.pool.liquidity + (if p.tickLower <= l.pool.tickCurrent < p.tickUpper then liquidity else 0)),
                          p.(liquidity := liquidity), TickState(p.tickLower, liquidity, liquidity, ZERO_FIVE),
                          TickState(p.tickUpper, -(liquidity as int), liquidity, ZERO_FIVE), amount0, amount1, true, true)
  {
    hide GetDeltaAmountsSigned, UpdateRewardInfos, InsideFrom;
    NothingToUpdate(l.pool, l.now);
    var p := l.protocols[j];
    var a, b := NamedTick(l.ticks, p.tickLower), NamedTick(l.ticks, p.tickUpper);
    var lower := UpdateTick(a, l.pool.tickCurrent, liquidity, ZERO_FIVE, false).value.0;
    var upper := UpdateTick(b, l.pool.tickCurrent, liquidity, ZERO_FIVE, true).value.0;
    NoGrowthInside(lower, upper, l.pool.tickCurrent, l.pool.rewards, 0);
    NoFeeYet(0);
    m := ModifyPosition(l.table, l.pool, p, a, b, liquidity, l.now).value;
  }

  function Opened(l: Ledger, lower: int, upper: int, liquidity: nat, amount0: int, amount1: int): Ledger {
    l.(pool := l.pool.(liquidity := l.pool.liquidity + (if lower <= l.pool.tickCurrent < upper then liquidity else 0)),
       protocols := l.protocols + [ProtocolPosition(lower, upper, liquidity, ZERO_FIVE, [0, 0])],
       ticks := l.ticks[lower := TickState(lower, liquidity, liquidity, ZERO_FIVE)]
                       [upper := TickState(upper, -(liquidity as int), liquidity, ZERO_FIVE)],
       personals := l.personals + [PersonalPosition(|l.protocols|, liquidity, ZERO_FIVE, ZERO_FIVE)],
       vaults := [l.vaults[0] + amount0, l.vaults[1] + amount1])
  }

  /** Nothing switched off, nothing grown, no reward running. */
  predicate Quiet(l: Ledger) {
    && l.pool.disabled == {} && l.pool.tickSpacing == 1 && l.pool.growthGlobal == ZERO_FIVE
    && (forall k :: 0 <= k < 3 ==> !l.pool.rewards[k].initialized)
    && |l.table| == MAX_TICK - MIN_TICK + 1
  }

  lemma OpensQuietly(l: Ledger, lower: int, upper: int, liquidity: nat, amount0: nat, amount1: nat)
    requires Quiet(l) && MIN_TICK <= lower < upper <= MAX_TICK
    requires TickOf(l.ticks, lower) == TickOf(l.ticks, upper) == DEFAULT_TICK && 0 < liquidity < I128_LIMIT
    requires l.pool.liquidity + liquidity < U128_LIMIT
    requires forall j :: 0 <= j < |l.protocols| ==> l.protocols[j].tickLower != lower
    requires GetDeltaAmountsSigned(l.pool.tickCurrent, l.pool.sqrtPrice, lower, upper, Price(l.table, lower), Price(l.table, upper), liquidity)
          == Ok((amount0, amount1))
    requires amount0 > 0 || amount1 > 0
    ensures OpenPosition(l, lower, upper, liquidity, amount0, amount1, None) == Ok(Opened(l, lower, upper, liquidity, amount0, amount1))
  {
    hide GetDeltaAmountsSigned, ModifyPosition;
    var found, j := Created(l, lower, upper), |l.protocols|;
    assert FindOrCreate(l, lower, upper) == (found, j);
    var m := QuietMint(found, j, liquidity, amount0, amount1);
    var added := Minted(found, j, m);
    assert AddLiquidity(found, j, liquidity, amount0, amount1, None, l.now) == Ok(added);
    var after := Opened(l, lower, upper, liquidity, amount0, amount1);
    assert added.ticks == after.ticks;
    assert added.protocols == after.protocols;
  }

  // -----------------------------------------------------------------------------------------
  // A mint for a budget

  /** What one unit of token 1 buys between ticks 0 and 1, and what that costs. */
  lemma OneUnitBuys()
    ensures GetLiquidityFromSingleAmount1(PRICE_ONE, Q64, PRICE_ONE, 1) == Ok(20000)
    ensures GetDeltaAmountsSigned(1, PRICE_ONE, 0, 1, Q64, PRICE_ONE, 20000) == Ok((0, 1))
  {
    hide MulDivFloor, MulDivCeil;
    MulDivFloorIs(1, Q64, PRICE_ONE - Q64, U256_LIMIT, U128_LIMIT);
    MulDivCeilIs(20000, PRICE_ONE - Q64, Q64, U256_LIMIT, U128_LIMIT);
    MulDivCeilFits(20000, PRICE_ONE - Q64, Q64, U256_LIMIT, U128_LIMIT);
  }

  /** A new pool at the price of tick 1. */
  ghost function PoolAtOne(): Ledger {
    PoolAt(PRICE_ONE, 1)
  }

  lemma PoolAtOneIsNew()
    ensures ValidTable(ConcreteTable()) && ConfigInv(NO_FEES)
    ensures CreatePool(ConcreteTable(), NO_FEES, 1, PRICE_ONE, 0, 1) == Ok(PoolAtOne())
    ensures PoolInv(PoolAtOne())
  {
    hide PoolInv, ConcreteTable, CreatePool;
    TablePrices();
    PriceIsMonotone(ConcreteTable(), 1, 2);
    PoolAtIsNew(PRICE_ONE, 1);
  }

  const EMPTY_POSITION := PersonalPosition(0, 0, ZERO_FIVE, ZERO_FIVE)

  /** The pool with an empty position on the range from tick 0 to tick 1. */
  ghost function OpenedAtOne(): Ledger {
    WithNew(Created(PoolAtOne(), 0, 1), EMPTY_POSITION)
  }

  lemma OpensAtOne()
    ensures OpenPosition(PoolAtOne(), 0, 1, 0, 0, 0, None) == Ok(OpenedAtOne())
  {
    hide ConcreteTable;
  }

  lemma CreditNothing()
    ensures Credit(EMPTY_POSITION, ZERO_FIVE) == Ok(EMPTY_POSITION)
  {
    hide CreditChannel;
    NoFeeYet(0);
    CreditIs(EMPTY_POSITION, ZERO_FIVE, 0);
    var owed := CreditFrom(EMPTY_POSITION, ZERO_FIVE, 0).value;
    forall c | 0 <= c < 5 ensures owed[c] == 0 { assert CreditChannel(EMPTY_POSITION, ZERO_FIVE, c) == Ok(owed[c - 0]); }
    assert owed == ZERO_FIVE;
  }

  /** An increase for a budget of one unit of token 1 goes through. */
  lemma IncreasesAtOne() returns (l': Ledger)
    ensures IncreaseLiquidity(OpenedAtOne(), 0, 0, 0, 1, Some(false)) == Ok(l')
  {
    hide ConcreteTable, ModifyPosition, GetLiquidityFromSingleAmount1, GetDeltaAmountsSigned, Credit;
    var l := OpenedAtOne();
    TablePrices();
    OneUnitBuys();
    CreditNothing();
    var m := QuietMint(l, 0, 20000, 0, 1);
    var added := Minted(l, 0, m);
    assert RequestedLiquidity(l.table, l.pool.sqrtPrice, l.protocols[0], 0, 0, 1, Some(false)) == Ok(20000);
    assert AddLiquidity(l, 0, 0, 0, 1, Some(false), l.now) == Ok(added);
    l' := WithPersonal(added, 0, EMPTY_POSITION);
  }

  /** A run of two instructions on a new pool after which owners do not hold all of their range: a position is
      opened empty, and its liquidity increased for a budget. */
  lemma BudgetLeavesUnowned()
    ensures ValidTable(ConcreteTable()) && CreatePool(ConcreteTable(), NO_FEES, 1, PRICE_ONE, 0, 1) == Ok(PoolAtOne())
    ensures PoolInv(PoolAtOne()) && FullyOwned(PoolAtOne())
    ensures !FullyOwned(Run(PoolAtOne(), [Event(0, Open(0, 1, 0, 0, 0, None)), Event(0, Increase(0, 0, 0, 1, Some(false)))]))
  {
    hide PoolInv, Run, OpenPosition, IncreaseLiquidity, ConcreteTable;
    PoolAtOneIsNew();
    NoRangesFullyOwned(PoolAtOne());
    var first, second := Event(0, Open(0, 1, 0, 0, 0, None)), Event(0, Increase(0, 0, 0, 1, Some(false)));
    OpensAtOne();
    var l' := IncreasesAtOne();
    assert After(PoolAtOne(), 0) == PoolAtOne();
    NextKeepsInv(PoolAtOne(), first);
    assert Next(PoolAtOne(), first) == OpenedAtOne();
    assert After(OpenedAtOne(), 0) == OpenedAtOne();
    WaitingKeepsInv(OpenedAtOne(), 0);
    assert Succeeds(OpenedAtOne(), second);
    assert [first, second][1..] == [second];
    assert SomeMintsForBudget(OpenedAtOne(), [second]);
    assert SomeMintsForBudget(PoolAtOne(), [first, second]);
    RunFullyOwned(PoolAtOne(), [first, second]);
  }

  // -----------------------------------------------------------------------------------------
  // Emission above funding

  lemma OneUnitDue(liquidity: nat)
    requires 0 < liquidity
    ensures FundingCeil(MIN_REWARD_PERIOD, 1) == Ok(1) && MulDivCeil128(1, 1, Q64) == Ok(1)
    ensures var growth := MulDivFloor256(1, 1, liquidity); growth.Ok? && growth.value <= 1
  {
    hide MulDivCeil, MulDivFloor;
    MulDivCeilFits(MIN_REWARD_PERIOD, 1, Q64, U256_LIMIT, U128_LIMIT);
    MulDivCeilIs(MIN_REWARD_PERIOD, 1, Q64, U256_LIMIT, U128_LIMIT);
    MulDivCeilFits(1, 1, Q64, U256_LIMIT, U128_LIMIT);
    MulDivCeilIs(1, 1, Q64, U256_LIMIT, U128_LIMIT);
    MulDivFloorFits(1, 1, liquidity, U256_LIMIT, U128_LIMIT);
    MulDivFloorIs(1, 1, liquidity, U256_LIMIT, U128_LIMIT);
    MulLe(1, liquidity, U128_LIMIT);
    FloorIsGreatest(MulDivFloor256(1, 1, liquidity).value, 1, liquidity, 2);
  }

  /** A reward of 2^-64 tokens a second over the shortest period is funded with one token; updated in each of its
      first two seconds it has emitted two, where one update would have emitted one. */
  lemma EmissionAboveFunding(l: Ledger) returns (middle: PoolState, late: PoolState, once: PoolState)
    requires !l.pool.rewards[0].initialized && 0 < l.pool.liquidity
    requires l.pool.growthGlobal[2] + 2 < U128_LIMIT && l.pool.total[2] + 2 < U64_LIMIT
    ensures var r := InitializeReward(l, 1, l.now, l.now + MIN_REWARD_PERIOD);
            && r.Ok? && r.value.rewardVaults[0] == l.rewardVaults[0] + 1
            && UpdateReward(r.value.pool, 0, l.now + 1) == Ok(middle) && UpdateReward(middle, 0, l.now + 2) == Ok(late)
            && UpdateReward(r.value.pool, 0, l.now + 2) == Ok(once)
            && late.total[2] == l.pool.total[2] + 2 && once.total[2] == l.pool.total[2] + 1
  {
    hide MulDivCeil, MulDivFloor;
    OneUnitDue(l.pool.liquidity);
    TwoUnitsDue(l.pool.liquidity);
    var running := InitializeReward(l, 1, l.now, l.now + MIN_REWARD_PERIOD).value.pool;
    middle := UpdateReward(running, 0, l.now + 1).value;
    late := UpdateReward(middle, 0, l.now + 2).value;
    once := UpdateReward(running, 0, l.now + 2).value;
  }

  lemma TwoUnitsDue(liquidity: nat)
    requires 0 < liquidity
    ensures MulDivCeil128(2, 1, Q64) == Ok(1)
    ensures var growth := MulDivFloor256(2, 1, liquidity); growth.Ok? && growth.value <= 2
  {
    hide MulDivCeil, MulDivFloor;
    MulDivCeilFits(2, 1, Q64, U256_LIMIT, U128_LIMIT);
    MulDivCeilIs(2, 1, Q64, U256_LIMIT, U128_LIMIT);
    MulDivFloorFits(2, 1, liquidity, U256_LIMIT, U128_LIMIT);
    MulDivFloorIs(2, 1, liquidity, U256_LIMIT, U128_LIMIT);
    MulLe(1, liquidity, U128_LIMIT);
    FloorIsGreatest(MulDivFloor256(2, 1, liquidity).value, 2, liquidity, 3);
  }

  // -----------------------------------------------------------------------------------------
  // A clock beyond 32 bits

  /** On a new pool at tick 0: a position around the price, a reward that opens at second 1 and that an operator then
      prolongs beyond 2^32, and an update in the second before. */
  const BEFORE_WRAP := [
    Event(0, Open(0, 1, 20000, 1, 0, None)),
    Event(0, NewReward(1, 1, 1 + MIN_REWARD_PERIOD)),
    Event(1, ChangeReward(0, 1, 3, U32_LIMIT + MIN_REWARD_PERIOD, true)),
    Event(U32_LIMIT - 3, UpdateAllRewards)]

  ghost function InRange(): Ledger {
    Opened(PoolAt(Q64, 0), 0, 1, 20000, 1, 0)
  }

  ghost function Rewarded(): Ledger {
    WithReward(InRange(), 0, RewardInfo(true, 1, 1 + MIN_REWARD_PERIOD, 1, 1), 1)
  }

  lemma PositionAroundPriceCosts()
    ensures GetDeltaAmountsSigned(0, Q64, 0, 1, Q64, PRICE_ONE, 20000) == Ok((1, 0))
  {
    hide MulDivCeil, FloorDiv;
    var gap := PRICE_ONE - Q64;
    MulDivCeilFits(20000 * Q64, gap, PRICE_ONE, U256_LIMIT, U128_LIMIT);
    MulDivCeilIs(20000 * Q64, gap, PRICE_ONE, U256_LIMIT, U128_LIMIT);
    DivRoundingUpIs(MulDivCeil256(20000 * Q64, gap, PRICE_ONE).value, Q64);
    MulDivCeilFits(20000, 0, Q64, U256_LIMIT, U128_LIMIT);
    MulDivCeilIs(20000, 0, Q64, U256_LIMIT, U128_LIMIT);
  }

  lemma OpensInRange()
    ensures PoolInv(PoolAt(Q64, 0)) && ValidTable(ConcreteTable())
    ensures CreatePool(ConcreteTable(), NO_FEES, 1, Q64, 0, 1) == Ok(PoolAt(Q64, 0))
    ensures OpenPosition(PoolAt(Q64, 0), 0, 1, 20000, 1, 0, None) == Ok(InRange())
  {
    hide PoolInv, ConcreteTable, OpenPosition, GetDeltaAmountsSigned, CreatePool;
    TablePrices();
    PoolAtIsNew(Q64, 0);
    PositionAroundPriceCosts();
    OpensQuietly(PoolAt(Q64, 0), 0, 1, 20000, 1, 0);
  }

  lemma RewardStarts()
    ensures InitializeReward(InRange(), 1, 1, 1 + MIN_REWARD_PERIOD) == Ok(Rewarded())
  {
    hide ConcreteTable, MulDivCeil;
    OneUnitDue(1);
  }

  /** A pool with that position, and that reward alone. */
  predicate RunsFrom(l: Ledger, endTime: nat, last: nat) {
    && l.now == last && l.pool.liquidity == 20000
    && l.pool.rewards[0] == RewardInfo(true, 1, endTime, last, 1)
    && !l.pool.rewards[1].initialized && !l.pool.rewards[2].initialized
    && l.pool.growthGlobal[2] < U64_LIMIT && l.pool.total[2] < U32_LIMIT
  }

  lemma SmallDue(elapsed: nat)
    requires 0 < elapsed < U32_LIMIT
    ensures MulDivCeil128(elapsed, 1, Q64) == Ok(1)
    ensures var growth := MulDivFloor256(elapsed, 1, 20000); growth.Ok? && growth.value < U32_LIMIT
  {
    hide MulDivCeil, MulDivFloor;
    MulDivCeilFits(elapsed, 1, Q64, U256_LIMIT, U128_LIMIT);
    MulDivCeilIs(elapsed, 1, Q64, U256_LIMIT, U128_LIMIT);
    MulDivFloorFits(elapsed, 1, 20000, U256_LIMIT, U128_LIMIT);
    MulDivFloorIs(elapsed, 1, 20000, U256_LIMIT, U128_LIMIT);
  }

  /** Bringing such a reward up to date. */
  lemma RunsOn(l: Ledger, endTime: nat, last: nat, elapsed: nat) returns (pool: PoolState)
    requires RunsFrom(l, endTime, last) && 0 < last && 0 < elapsed < U32_LIMIT && last + elapsed <= endTime
    requires l.pool.growthGlobal[2] + U32_LIMIT < U64_LIMIT && l.pool.total[2] + 1 < U32_LIMIT
    ensures UpdateRewardInfos(l.pool, last + elapsed) == Ok(pool)
    ensures RunsFrom(l.(pool := pool, now := last + elapsed), endTime, last + elapsed)
    ensures pool.growthGlobal[2] < l.pool.growthGlobal[2] + U32_LIMIT && pool.total[2] == l.pool.total[2] + 1
  {
    hide MulDivCeil, MulDivFloor;
    SmallDue(elapsed);
    pool := UpdateReward(l.pool, 0, last + elapsed).value;
    OthersIdle(pool, last + elapsed);
  }

  lemma OthersIdle(pool: PoolState, timestamp: nat)
    requires !pool.rewards[1].initialized && !pool.rewards[2].initialized
    ensures UpdateRewardsFrom(pool, 1, timestamp) == Ok(pool)
  {
    assert UpdateRewardsFrom(pool, 2, timestamp) == UpdateRewardsFrom(pool, 3, timestamp);
  }

  /** The operator's change is free: neither the rate nor two to the power of 32 seconds at it come to a token. */
  lemma RewardIsProlonged() returns (l: Ledger)
    ensures SetRewardParams(After(Rewarded(), 1), 0, 1, 3, U32_LIMIT + MIN_REWARD_PERIOD, true) == Ok(l)
    ensures RunsFrom(l, U32_LIMIT + MIN_REWARD_PERIOD, 2) && l.pool.growthGlobal[2] < U32_LIMIT && l.pool.total[2] == 1
  {
    hide ConcreteTable, MulDivCeil, MulDivFloor, UpdateRewardInfos;
    var pool := RunsOn(Rewarded(), 1 + MIN_REWARD_PERIOD, 1, 1);
    MulDivFloorFits(MIN_REWARD_PERIOD - 1, 0, Q64, U256_LIMIT, U128_LIMIT);
    MulDivFloorIs(MIN_REWARD_PERIOD - 1, 0, Q64, U256_LIMIT, U128_LIMIT);
    MulDivFloorFits(U32_LIMIT - 1, 1, Q64, U256_LIMIT, U128_LIMIT);
    MulDivFloorIs(U32_LIMIT - 1, 1, Q64, U256_LIMIT, U128_LIMIT);
    l := SetRewardParams(After(Rewarded(), 1), 0, 1, 3, U32_LIMIT + MIN_REWARD_PERIOD, true).value;
  }

  lemma RewardIsUpdated(l: Ledger) returns (l': Ledger)
    requires RunsFrom(l, U32_LIMIT + MIN_REWARD_PERIOD, 2) && l.pool.growthGlobal[2] < U32_LIMIT && l.pool.total[2] == 1
    ensures UpdateRewards(After(l, U32_LIMIT - 3)) == Ok(l') && RunsFrom(l', U32_LIMIT + MIN_REWARD_PERIOD, U32_LIMIT - 1)
  {
    hide UpdateRewardInfos;
    var pool := RunsOn(l, U32_LIMIT + MIN_REWARD_PERIOD, 2, U32_LIMIT - 3);
    l' := After(l, U32_LIMIT - 3).(pool := pool);
  }

  /** That run leaves a reward updated up to 2^32 - 1. */
  lemma ReachesWrap()
    ensures ValidTable(ConcreteTable()) && CreatePool(ConcreteTable(), NO_FEES, 1, Q64, 0, 1) == Ok(PoolAt(Q64, 0))
    ensures PoolInv(PoolAt(Q64, 0))
    ensures var l := Run(PoolAt(Q64, 0), BEFORE_WRAP);
            PoolInv(l) && RunsFrom(l, U32_LIMIT + MIN_REWARD_PERIOD, U32_LIMIT - 1)
  {
    hide PoolInv, OpenPosition, InitializeReward, SetRewardParams, UpdateRewards, Run, ConcreteTable, CreatePool, InRange, Rewarded, RunsFrom;
    OpensInRange();
    RewardStarts();
    var prolonged := RewardIsProlonged();
    var updated := RewardIsUpdated(prolonged);
    RunsToWrap(prolonged, updated);
  }

  lemma RunsToWrap(prolonged: Ledger, updated: Ledger)
    requires PoolInv(PoolAt(Q64, 0))
    requires OpenPosition(PoolAt(Q64, 0), 0, 1, 20000, 1, 0, None) == Ok(InRange())
    requires InitializeReward(InRange(), 1, 1, 1 + MIN_REWARD_PERIOD) == Ok(Rewarded())
    requires SetRewardParams(After(Rewarded(), 1), 0, 1, 3, U32_LIMIT + MIN_REWARD_PERIOD, true) == Ok(prolonged)
    requires UpdateRewards(After(prolonged, U32_LIMIT - 3)) == Ok(updated)
    ensures Run(PoolAt(Q64, 0), BEFORE_WRAP) == updated && PoolInv(updated)
  {
    hide PoolInv, OpenPosition, InitializeReward, SetRewardParams, UpdateRewards, PoolAt, InRange, Rewarded;
    var events := BEFORE_WRAP;
    assert After(PoolAt(Q64, 0), 0) == PoolAt(Q64, 0) && After(InRange(), 0) == InRange();
    NextKeepsInv(PoolAt(Q64, 0), events[0]);
    assert Next(PoolAt(Q64, 0), events[0]) == InRange();
    NextKeepsInv(InRange(), events[1]);
    assert Next(InRange(), events[1]) == Rewarded();
    NextKeepsInv(Rewarded(), events[2]);
    assert Next(Rewarded(), events[2]) == prolonged;
    NextKeepsInv(prolonged, events[3]);
    assert Next(prolonged, events[3]) == updated;
    assert events[1..][1..] == events[2..] && events[2..][1..] == events[3..] && events[3..][1..] == [];
    assert Run(updated, []) == updated;
    assert Run(prolonged, events[3..]) == updated;
    assert Run(Rewarded(), events[2..]) == updated;
    assert Run(InRange(), events[1..]) == updated;
  }

  /** Seven seconds later the swap's clock says 6: the subtraction of times fails, and so does every swap, whatever
      its arguments. */
  lemma ClockWrapsBehindReward(amount: nat, threshold: nat, limit: nat, zeroForOne: bool, baseInput: bool)
    ensures PoolInv(PoolAt(Q64, 0))
    ensures var l := After(Run(PoolAt(Q64, 0), BEFORE_WRAP), 7);
            && PoolInv(l) && l.now == U32_LIMIT + 6 && ClockBehind(l.pool, l.now % U32_LIMIT)
            && Apply(l, Trade(amount, threshold, limit, zeroForOne, baseInput)).Err?
  {
    hide PoolInv, Run, PoolAt, Apply;
    ReachesWrap();
    var l := Run(PoolAt(Q64, 0), BEFORE_WRAP);
    WaitingKeepsInv(l, 7);
    SevenSecondsOn(l);
    BehindFails(After(l, 7), amount, threshold, limit, zeroForOne, baseInput);
  }

  lemma SevenSecondsOn(l: Ledger)
    requires RunsFrom(l, U32_LIMIT + MIN_REWARD_PERIOD, U32_LIMIT - 1)
    ensures ClockBehind(l.pool, (U32_LIMIT + 6) % U32_LIMIT)
  {
    assert RunsBackwards(l.pool, 0, 6);
  }

  lemma BehindFails(l: Ledger, amount: nat, threshold: nat, limit: nat, zeroForOne: bool, baseInput: bool)
    requires PoolInv(l) && ClockBehind(l.pool, l.now % U32_LIMIT)
    ensures Apply(l, Trade(amount, threshold, limit, zeroForOne, baseInput)).Err?
  {
    hide TimesInv, ClaimsInv, VaultsInv, TotalsFit, Swap, ClockBehind, PriceInv;
    SwapFailsOnlyBy(l, amount, threshold, limit, zeroForOne, baseInput);
  }
}
