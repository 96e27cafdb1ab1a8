/** When a change of liquidity goes through: which figures have to fit their integers, and that nothing else stops it. */
module PositionSuccess {
  import opened Wrappers
  import opened FullMath
  import opened LiquidityMath
  import opened PoolTypes
  import opened TickGrowth
  import opened Ledger
  import opened Sums
  import opened Invariants
  import opened ClaimLemmas
  import opened PositionLemmas
  import opened Vaults
  import opened PositionSafety
  import opened DecreaseSafety
  import opened OpenSafety
  import opened Withdrawal
  import opened RewardOutcome
  import opened RoundTrips
  import opened PositionOutcome
  import opened DecreaseOutcome
  import opened SwapSuccess

  // -----------------------------------------------------------------------------------------
  // Amounts

  /** Both tokens of a liquidity in a range are u64 figures, and so far as needed what is worked out on the way fits. */
  ghost predicate TokensFit(x: nat, low: nat, high: nat, liquidity: nat, roundUp: bool) {
    var y := Inside(x, low, high);
    if roundUp then CostFits(high, y, liquidity, true) && CostFits(low, y, liquidity, false)
    else ReleaseFits(y, high, liquidity, false) && ReleaseFits(y, low, liquidity, true)
  }

  lemma SameRounding(q: int, r: int, n: int, d: int)
    requires 0 < d
    ensures IsCeil(q, n, d) && IsCeil(r, n, d) ==> q == r
    ensures IsFloor(q, n, d) && IsFloor(r, n, d) ==> q == r
  {
    if IsCeil(q, n, d) && IsCeil(r, n, d) {
      CeilIsLeast(q, n, d, r);
      CeilIsLeast(r, n, d, q);
    }
    if IsFloor(q, n, d) && IsFloor(r, n, d) {
      FloorIsGreatest(q, n, d, r);
      FloorIsGreatest(r, n, d, q);
    }
  }

  lemma SignedAmountsGoThrough(l: Ledger, lower: int, upper: int, delta: int, amount0: int, amount1: int)
    requires PriceInv(l) && MIN_TICK <= lower < upper <= MAX_TICK && delta != 0 && amount0 < I64_LIMIT && amount1 < I64_LIMIT
    requires var low, high, size := Price(l.table, lower), Price(l.table, upper), if delta > 0 then delta else -delta;
             AmountsAt(l.pool.sqrtPrice, low, high, size, amount0, amount1, delta > 0) &&
             TokensFit(l.pool.sqrtPrice, low, high, size, delta > 0)
    ensures GetDeltaAmountsSigned(l.pool.tickCurrent, l.pool.sqrtPrice, lower, upper, Price(l.table, lower), Price(l.table, upper), delta)
         == Ok(if delta > 0 then (amount0, amount1) else (-amount0, -amount1))
  {
    hide GetDeltaAmount0Unsigned, GetDeltaAmount1Unsigned, IsFloor, IsCeil, ValidTable, CostFits, ReleaseFits;
    TableIsFull(l.table);
    PriceIsMonotone(l.table, lower, upper);
    PriceIsMonotone(l.table, MIN_TICK, lower);
    TickTellsPrice(l, lower);
    TickTellsPrice(l, upper);
    var x, low, high := l.pool.sqrtPrice, Price(l.table, lower), Price(l.table, upper);
    var size: nat, y := if delta > 0 then delta else -delta, Inside(x, low, high);
    Amount0IsOneRounding(y, high, size, delta > 0);
    Amount1IsOneRounding(low, y, size, delta > 0);
    if delta > 0 { Amount0UpFits(y, high, size); } else { Amount0DownFits(y, high, size); }
    Amount1Fits(low, y, size);
    assert high * y > 0 by { MulLt(0, high, y); }
    SameRounding(GetDeltaAmount0Unsigned(y, high, size, delta > 0).value, amount0, size * Q64 * (high - y), high * y);
    SameRounding(GetDeltaAmount1Unsigned(low, y, size, delta > 0).value, amount1, size * (y - low), Q64);
    NothingAt(low, high, size);
    assert high * high > 0 by { MulLt(0, high, high); }
    SameRounding(0, amount0, size * Q64 * (high - high), high * high);
    SameRounding(0, amount1, size * (low - low), Q64);
  }

  // -----------------------------------------------------------------------------------------
  // A range and its ends

  predicate EndFits(t: TickState, delta: int, netDelta: int) {
    && 0 <= t.liquidityGross + delta < U128_LIMIT
    && 0 - I128_LIMIT <= t.liquidityNet + netDelta < I128_LIMIT
  }

  /** A slot as the growth inside its range is read: one that was unused starts with the growth so far if it lies at or
      below the current tick. */
  ghost function Starting(l: Ledger, t: int, delta: int, updated: PoolState): TickState {
    var slot := TickOf(l.ticks, t);
    if delta != 0 && slot.liquidityGross == 0 && t <= l.pool.tickCurrent then slot.(growthOutside := updated.growthGlobal) else slot
  }

  ghost function Reading(l: Ledger, p: ProtocolPosition, delta: int, updated: PoolState): Ledger {
    l.(pool := updated,
       ticks := l.ticks[p.tickLower := Starting(l, p.tickLower, delta, updated)][p.tickUpper := Starting(l, p.tickUpper, delta, updated)])
  }

  /** The tallies a range keeps for itself. */
  ghost predicate TalliesFit(l: Ledger, p: ProtocolPosition, delta: int, updated: PoolState) {
    forall k :: 0 <= k < 2 ==>
      var inside := RangeGrowth(Reading(l, p, delta, updated), p, k) % U128_LIMIT;
      && (inside - p.growthInside[k]) * p.liquidity < U128_LIMIT * Q64
      && p.feesOwed[k] + Tallied(inside, p.growthInside[k], p.liquidity) < U64_LIMIT
  }

  /** Every figure that a change of `delta` in range `j` touches stays within its integer. */
  ghost predicate ChangeFits(l: Ledger, j: nat, delta: int, amount0: int, amount1: int, updated: PoolState)
    requires j < |l.protocols| && ValidTable(l.table) && ValidRanges(l)
  {
    var p, size := l.protocols[j], if delta > 0 then delta else -delta;
    var low, high := Price(l.table, p.tickLower), Price(l.table, p.tickUpper);
    && size < I128_LIMIT && 0 <= p.liquidity + delta < U128_LIMIT && (delta == 0 ==> p.liquidity > 0)
    && TalliesFit(l, p, delta, updated)
    && AmountsAt(l.pool.sqrtPrice, low, high, size, amount0, amount1, delta > 0) && amount0 < I64_LIMIT && amount1 < I64_LIMIT
    && (delta != 0 ==>
          && TokensFit(l.pool.sqrtPrice, low, high, size, delta > 0)
          && EndFits(TickOf(l.ticks, p.tickLower), delta, delta) && EndFits(TickOf(l.ticks, p.tickUpper), delta, -delta)
          && (p.tickLower <= l.pool.tickCurrent < p.tickUpper ==> 0 <= l.pool.liquidity + delta < U128_LIMIT))
  }

  lemma TickGoesThrough(t: TickState, tickCurrent: int, delta: int, growth: Five, upper: bool)
    requires delta != 0 ==> -delta < I128_LIMIT && EndFits(t, delta, if upper then -delta else delta)
    ensures UpdateTickUnlessZero(t, tickCurrent, delta, growth, upper).Ok?
    ensures var a := UpdateTickUnlessZero(t, tickCurrent, delta, growth, upper).value.0;
            && a.tick == t.tick
            && a.growthOutside == if delta != 0 && t.liquidityGross == 0 && t.tick <= tickCurrent then growth else t.growthOutside
  {}

  lemma TallyGoesThrough(inside: nat, last: nat, liquidity: nat)
    requires (inside - last) * liquidity < U128_LIMIT * Q64
    ensures ProtocolFee(inside, last, liquidity) == Ok(Tallied(inside, last, liquidity))
  {
    hide MulDivFloor, FloorDiv;
    var growth := if inside >= last then inside - last else 0;
    MulDivFloorFits(growth, liquidity, Q64, U256_LIMIT, U128_LIMIT);
    TalliedIs(inside, last, liquidity);
  }

  /** Growth inside a range can always be read. */
  lemma InsideGoesThrough(l: Ledger, p: ProtocolPosition, delta: int, updated: PoolState, a: TickState, b: TickState)
    requires GrowthInv(l.(pool := updated)) && updated.tickCurrent == l.pool.tickCurrent && p.tickLower != p.tickUpper
    requires a.tick == p.tickLower && a.growthOutside == Starting(l, p.tickLower, delta, updated).growthOutside
    requires b.tick == p.tickUpper && b.growthOutside == Starting(l, p.tickUpper, delta, updated).growthOutside
    ensures GrowthInside(a, b, l.pool.tickCurrent, updated.growthGlobal, updated.rewards).Ok?
    ensures var inside := GrowthInside(a, b, l.pool.tickCurrent, updated.growthGlobal, updated.rewards).value;
            forall c :: 0 <= c < 5 ==> inside[c] == RangeGrowth(Reading(l, p, delta, updated), p, c) % U128_LIMIT
  {
    var at := l.(pool := updated);
    forall c | 0 <= c < 5
      ensures InsideChannel(a, b, l.pool.tickCurrent, updated.growthGlobal, updated.rewards, c)
           == Ok(RangeGrowth(Reading(l, p, delta, updated), p, c) % U128_LIMIT)
    {
      assert TickOf(at.ticks, p.tickLower).growthOutside[c] <= updated.growthGlobal[c];
      assert TickOf(at.ticks, p.tickUpper).growthOutside[c] <= updated.growthGlobal[c];
      InsideIsRaw(a, b, l.pool.tickCurrent, updated.growthGlobal, updated.rewards, c);
    }
    InsideIs(a, b, l.pool.tickCurrent, updated.growthGlobal, updated.rewards, 0);
  }

  lemma ProtocolGoesThrough(l: Ledger, p: ProtocolPosition, delta: int, updated: PoolState, inside: Five)
    requires MIN_TICK <= p.tickLower < p.tickUpper <= MAX_TICK && TalliesFit(l, p, delta, updated)
    requires -delta < I128_LIMIT && 0 <= p.liquidity + delta < U128_LIMIT && (delta == 0 ==> p.liquidity > 0)
    requires forall c :: 0 <= c < 5 ==> inside[c] == RangeGrowth(Reading(l, p, delta, updated), p, c) % U128_LIMIT
    ensures UpdateProtocol(p, p.tickLower, p.tickUpper, delta, inside).Ok?
  {
    hide RangeGrowth, ProtocolFee, Tallied;
    TallyGoesThrough(inside[0], p.growthInside[0], p.liquidity);
    TallyGoesThrough(inside[1], p.growthInside[1], p.liquidity);
  }

  // -----------------------------------------------------------------------------------------
  // The change

  lemma UpdateGoesThrough(l: Ledger, j: nat, delta: int, amount0: int, amount1: int, updated: PoolState)
    requires Inv(l) && j < |l.protocols| && UpdateRewardInfos(l.pool, l.now) == Ok(updated)
    requires ValidTable(l.table) && ValidRanges(l) && ChangeFits(l, j, delta, amount0, amount1, updated)
    ensures var p := l.protocols[j];
            UpdatePosition(l.pool, p, NamedTick(l.ticks, p.tickLower), NamedTick(l.ticks, p.tickUpper), delta, l.now).Ok?
  {
    hide HoldingsInv, AccrualInv, ClaimsCovered, LiquidityInv, NamedSlots, VaultsInv, PriceInv, TotalsFit, ConfigInv,
      UpdateRewardInfos,
      AmountsAt, TokensFit, TalliesFit, RangeGrowth, GrowthInside, UpdateProtocol, UpdateTickUnlessZero;
    var p := l.protocols[j];
    var lower, upper := NamedTick(l.ticks, p.tickLower), NamedTick(l.ticks, p.tickUpper);
    WithRewardsKeepsInv(l, l.now);
    InfosOnlyGrow(l.pool, l.now);
    EndsAreNamed(l, j);
    TickGoesThrough(lower, l.pool.tickCurrent, delta, updated.growthGlobal, false);
    TickGoesThrough(upper, l.pool.tickCurrent, delta, updated.growthGlobal, true);
    var a := UpdateTickUnlessZero(lower, l.pool.tickCurrent, delta, updated.growthGlobal, false).value.0;
    var b := UpdateTickUnlessZero(upper, l.pool.tickCurrent, delta, updated.growthGlobal, true).value.0;
    InsideGoesThrough(l, p, delta, updated, a, b);
    ProtocolGoesThrough(l, p, delta, updated, GrowthInside(a, b, l.pool.tickCurrent, updated.growthGlobal, updated.rewards).value);
  }

  /** A change whose figures fit goes through, and moves those amounts. */
  lemma ModifyGoesThrough(l: Ledger, j: nat, delta: int, amount0: int, amount1: int, updated: PoolState) returns (m: Modified)
    requires Inv(l) && j < |l.protocols| && UpdateRewardInfos(l.pool, l.now) == Ok(updated)
    requires ValidTable(l.table) && ValidRanges(l) && ChangeFits(l, j, delta, amount0, amount1, updated)
    ensures Modifies(l, j, delta, l.now, m)
    ensures if delta > 0 then m.amount0 == amount0 && m.amount1 == amount1 else m.amount0 == -amount0 && m.amount1 == -amount1
  {
    hide HoldingsInv, AccrualInv, ClaimsCovered, LiquidityInv, NamedSlots, GrowthInv, VaultsInv, PriceInv, TotalsFit, ConfigInv,
      UpdatePosition, AmountsAt, TokensFit, TalliesFit, GetDeltaAmountsSigned;
    var p := l.protocols[j];
    UpdateGoesThrough(l, j, delta, amount0, amount1, updated);
    EndsAreNamed(l, j);
    if delta != 0 { SignedAmountsGoThrough(l, p.tickLower, p.tickUpper, delta, amount0, amount1); }
    else { NoAmounts(l, p.tickLower, p.tickUpper, amount0, amount1); }
    m := ModifyPosition(l.table, l.pool, p, NamedTick(l.ticks, p.tickLower), NamedTick(l.ticks, p.tickUpper), delta, l.now).value;
    if delta == 0 {
      ZeroModifyMovesNoTokens(l.table, l.pool, p, NamedTick(l.ticks, p.tickLower), NamedTick(l.ticks, p.tickUpper), l.now);
    }
  }

  lemma NoAmounts(l: Ledger, lower: int, upper: int, amount0: int, amount1: int)
    requires ValidTable(l.table) && MIN_TICK <= lower < upper <= MAX_TICK
    requires AmountsAt(l.pool.sqrtPrice, Price(l.table, lower), Price(l.table, upper), 0, amount0, amount1, false)
    ensures amount0 == 0 && amount1 == 0
  {
    hide IsFloor;
    PriceIsMonotone(l.table, lower, upper);
    PriceIsMonotone(l.table, MIN_TICK, lower);
    var low, high := Price(l.table, lower), Price(l.table, upper);
    var y := Inside(l.pool.sqrtPrice, low, high);
    NothingIsFreed(l.pool.sqrtPrice, low, high);
    assert high * y > 0 by { MulLt(0, high, y); }
    SameRounding(0, amount0, 0 * Q64 * (high - y), high * y);
    SameRounding(0, amount1, 0 * (y - low), Q64);
  }

  // -----------------------------------------------------------------------------------------
  // Minting

  /** What a budget buys is worked out within 128 and 256 bits. */
  predicate BudgetFits(x: nat, low: nat, high: nat, base0: bool, budget: nat) {
    var y := Inside(x, low, high);
    if base0 then
      y < high ==>
        && y * high < U256_LIMIT && y * high < U128_LIMIT * Q64
        && budget * (y * high / Q64) < U256_LIMIT && budget * (y * high / Q64) < U128_LIMIT * (high - y)
    else
      low < y ==> budget * Q64 < U256_LIMIT && budget * Q64 < U128_LIMIT * (y - low)
  }

  lemma QuotientIs(q: nat, r: nat, n: nat, d: nat)
    requires 0 < d && IsFloor(q, n, d) && r * d <= n < (r + 1) * d
    ensures q == r
  {
    FloorIsGreatest(q, n, d, r);
    FloorIsGreatest(q, n, d, r + 1);
  }

  lemma Budget0GoesThrough(y: nat, high: nat, budget: nat, minted: nat)
    requires 0 < y < high && y * high < U256_LIMIT && y * high < U128_LIMIT * Q64
    requires budget * (y * high / Q64) < U256_LIMIT && budget * (y * high / Q64) < U128_LIMIT * (high - y)
    requires minted * (high - y) <= budget * (y * high / Q64) < (minted + 1) * (high - y)
    ensures GetLiquidityFromAmount0(y, high, budget) == Ok(minted)
  {
    hide MulDivFloor, IsFloor;
    var d := high - y;
    MulDivFloorFits(y, high, Q64, U256_LIMIT, U128_LIMIT);
    MulDivFloorIs(y, high, Q64, U256_LIMIT, U128_LIMIT);
    var product := MulDivFloor128(y, high, Q64).value;
    FloorIsQuotient(product, y * high, Q64);
    MulDivFloorFits(budget, product, d, U256_LIMIT, U128_LIMIT);
    MulDivFloorIs(budget, product, d, U256_LIMIT, U128_LIMIT);
    QuotientIs(MulDivFloor128(budget, product, d).value, minted, budget * product, d);
  }

  lemma Budget1GoesThrough(low: nat, y: nat, budget: nat, minted: nat)
    requires low < y && budget * Q64 < U256_LIMIT && budget * Q64 < U128_LIMIT * (y - low)
    requires minted * (y - low) <= budget * Q64 < (minted + 1) * (y - low)
    ensures GetLiquidityFromAmount1(low, y, budget) == Ok(minted)
  {
    hide MulDivFloor, IsFloor;
    MulDivFloorFits(budget, Q64, y - low, U256_LIMIT, U128_LIMIT);
    MulDivFloorIs(budget, Q64, y - low, U256_LIMIT, U128_LIMIT);
    QuotientIs(MulDivFloor128(budget, Q64, y - low).value, minted, budget * Q64, y - low);
  }

  lemma BudgetGoesThrough(table: PriceTable, x: nat, p: ProtocolPosition, max0: nat, max1: nat, base0: bool, minted: nat)
    requires ValidTable(table) && MIN_TICK <= p.tickLower < p.tickUpper <= MAX_TICK
    requires var low, high, budget := Price(table, p.tickLower), Price(table, p.tickUpper), if base0 then max0 else max1;
             BudgetFits(x, low, high, base0, budget) && BuysMost(x, low, high, base0, budget, minted)
    ensures RequestedLiquidity(table, x, p, 0, max0, max1, Some(base0)) == Ok(minted)
  {
    hide GetLiquidityFromAmount0, GetLiquidityFromAmount1, ValidTable;
    PriceIsMonotone(table, p.tickLower, p.tickUpper);
    PriceIsMonotone(table, MIN_TICK, p.tickLower);
    TableIsFull(table);
    var low, high := Price(table, p.tickLower), Price(table, p.tickUpper);
    var y := Inside(x, low, high);
    if base0 && y < high { Budget0GoesThrough(y, high, max0, minted); }
    if !base0 && low < y { Budget1GoesThrough(low, y, max1, minted); }
  }

  /** The liquidity of a mint can be worked out, and all figures it changes fit. */
  ghost predicate MintFits(l: Ledger, j: nat, liquidity: nat, max0: nat, max1: nat, baseFlag: Option<bool>,
                           minted: nat, amount0: int, amount1: int, updated: PoolState)
    requires j < |l.protocols| && ValidTable(l.table) && ValidRanges(l)
  {
    var low, high := Price(l.table, l.protocols[j].tickLower), Price(l.table, l.protocols[j].tickUpper);
    && (liquidity == 0 && baseFlag.Some? ==> BudgetFits(l.pool.sqrtPrice, low, high, baseFlag.value, if baseFlag.value then max0 else max1))
    && ChangeFits(l, j, minted, amount0, amount1, updated)
  }

  /** A mint that stays within the caller's maxima goes through if its figures fit. */
  lemma AddGoesThrough(l: Ledger, j: nat, liquidity: nat, max0: nat, max1: nat, baseFlag: Option<bool>,
                       minted: nat, amount0: int, amount1: int, updated: PoolState)
    requires Inv(l) && j < |l.protocols| && UpdateRewardInfos(l.pool, l.now) == Ok(updated)
    requires ValidTable(l.table) && ValidRanges(l) && MintCosts(l, j, liquidity, max0, max1, baseFlag, minted, amount0, amount1)
    requires MintFits(l, j, liquidity, max0, max1, baseFlag, minted, amount0, amount1, updated)
    ensures AddLiquidity(l, j, liquidity, max0, max1, baseFlag, l.now).Ok?
  {
    hide HoldingsInv, AccrualInv, ClaimsCovered, LiquidityInv, NamedSlots, GrowthInv, VaultsInv, PriceInv, TotalsFit, ConfigInv,
      AmountsAt, TokensFit, TalliesFit, BuysMost, BudgetFits, RequestedLiquidity, ModifyPosition, ValidTable, UpdateRewardInfos;
    var m := ModifyGoesThrough(l, j, minted, amount0, amount1, updated);
    assert RequestedLiquidity(l.table, l.pool.sqrtPrice, l.protocols[j], liquidity, max0, max1, baseFlag) == Ok(minted) by {
      if liquidity == 0 { BudgetGoesThrough(l.table, l.pool.sqrtPrice, l.protocols[j], max0, max1, baseFlag.value, minted); }
      else { RequestedAsAsked(l.table, l.pool.sqrtPrice, l.protocols[j], liquidity, max0, max1, baseFlag); }
    }
  }

  lemma RequestedAsAsked(table: PriceTable, x: nat, p: ProtocolPosition, liquidity: nat, max0: nat, max1: nat,
                         baseFlag: Option<bool>)
    requires liquidity > 0
    ensures RequestedLiquidity(table, x, p, liquidity, max0, max1, baseFlag) == Ok(liquidity)
  {}

  /** `increase_liquidity`, then, goes through where it is allowed and the owner's liquidity stays a u128. */
  lemma IncreaseGoesThrough(l: Ledger, i: nat, liquidity: nat, max0: nat, max1: nat, baseFlag: Option<bool>,
                            minted: nat, amount0: int, amount1: int, updated: PoolState)
    requires Inv(l) && i < |l.personals| && l.personals[i].protocol < |l.protocols| && UpdateRewardInfos(l.pool, l.now) == Ok(updated)
    requires ValidTable(l.table) && ValidRanges(l) && IncreaseOp !in l.pool.disabled
    requires MintCosts(l, l.personals[i].protocol, liquidity, max0, max1, baseFlag, minted, amount0, amount1)
    requires MintFits(l, l.personals[i].protocol, liquidity, max0, max1, baseFlag, minted, amount0, amount1, updated)
    requires l.personals[i].liquidity + liquidity < U128_LIMIT
    ensures IncreaseLiquidity(l, i, liquidity, max0, max1, baseFlag).Ok?
  {
    hide ClaimsInv, PriceInv, VaultsInv, ConfigInv, TotalsFit, AddLiquidity, Modifies, MintCosts, MintFits, RangeChanged,
      Credit, MintEffect, ValidTable,
      UpdateRewardInfos, Mints, SameEnds;
    var j := l.personals[i].protocol;
    AddGoesThrough(l, j, liquidity, max0, max1, baseFlag, minted, amount0, amount1, updated);
    var added := AddLiquidity(l, j, liquidity, max0, max1, baseFlag, l.now).value;
    var n, m, u := AddIs(l, j, liquidity, max0, max1, baseFlag, added);
    MintKeepsInv(l, j, n, l.now, m);
    MintHasEffect(l, j, n, l.now, m);
    assert RecordsGrowth(added, l.personals[i], added.protocols[j].growthInside) by { EffectRecords(l, j, n, m, l.personals[i]); }
    CreditNeverFails(added, i, added.protocols[j].growthInside);
    CreditKeepsLiquidity(l.personals[i], added.protocols[j].growthInside);
  }

  /** And so does `open_position`, if the ends are ticks of the pool's spacing. */
  lemma OpenGoesThrough(l: Ledger, tickLower: int, tickUpper: int, liquidity: nat, max0: nat, max1: nat, baseFlag: Option<bool>,
                        found: Ledger, j: nat, amount0: int, amount1: int, updated: PoolState)
    requires Inv(l) && IncreaseOp !in l.pool.disabled && -443636 <= tickLower < tickUpper <= 443636
    requires 0 < l.pool.tickSpacing && tickLower % l.pool.tickSpacing == 0 && tickUpper % l.pool.tickSpacing == 0
    requires FindOrCreate(l, tickLower, tickUpper) == (found, j)
    requires liquidity > 0 ==>
               && UpdateRewardInfos(l.pool, l.now) == Ok(updated) && ValidTable(found.table) && ValidRanges(found)
               && MintCosts(found, j, liquidity, max0, max1, baseFlag, liquidity, amount0, amount1)
               && MintFits(found, j, liquidity, max0, max1, baseFlag, liquidity, amount0, amount1, updated)
    ensures OpenPosition(l, tickLower, tickUpper, liquidity, max0, max1, baseFlag).Ok?
  {
    hide Inv, FindOrCreate, AddLiquidity, MintCosts, MintFits, ValidTable, UpdateRewardInfos;
    FoundKeepsInv(l, tickLower, tickUpper);
    FoundKeepsPool(l, tickLower, tickUpper);
    if liquidity > 0 { AddGoesThrough(found, j, liquidity, max0, max1, baseFlag, liquidity, amount0, amount1, updated); }
  }

  lemma FoundKeepsPool(l: Ledger, tickLower: int, tickUpper: int)
    ensures FindOrCreate(l, tickLower, tickUpper).0.pool == l.pool
  {}

  // -----------------------------------------------------------------------------------------
  // Burning

  lemma LiveEndsAreNamed(l: Ledger, j: nat)
    requires Inv(l) && j < |l.protocols| && l.protocols[j].liquidity > 0
    ensures var p := l.protocols[j];
            NamedTick(l.ticks, p.tickLower) == TickOf(l.ticks, p.tickLower) && NamedTick(l.ticks, p.tickUpper) == TickOf(l.ticks, p.tickUpper)
  {
    hide HoldingsInv, AccrualInv, ClaimsCovered, GrowthInv, VaultsInv, PriceInv;
    LiveRangeIsInitialized(l, j);
  }

  lemma BurnGoesThrough(l: Ledger, i: nat, liquidity: nat, amount0: nat, amount1: nat, updated: PoolState)
    requires Inv(l) && i < |l.personals| && l.personals[i].protocol < |l.protocols| && liquidity <= l.personals[i].liquidity
    requires DecreaseOp !in l.pool.disabled && UpdateRewardInfos(l.pool, l.now) == Ok(updated)
    requires ValidTable(l.table) && ValidRanges(l) && ChangeFits(l, l.personals[i].protocol, 0 - liquidity, amount0, amount1, updated)
    ensures BurnAndCredit(l, i, liquidity).Ok?
    ensures BurnAndCredit(l, i, liquidity).value.1 == amount0 && BurnAndCredit(l, i, liquidity).value.2 == amount1
  {
    hide ClaimsInv, PriceInv, VaultsInv, ConfigInv, TotalsFit, ModifyPosition, AmountsAt, TokensFit, TalliesFit, ValidTable,
      UpdateRewardInfos, Credit,
      EndFits;
    var j := l.personals[i].protocol;
    var m := ModifyGoesThrough(l, j, 0 - liquidity, amount0, amount1, updated);
    LiveEndsAreNamed(l, j);
    var burnt := BurnLiquidity(l, j, liquidity).value.0;
    CreditAfterBurnNeverFails(l, i, liquidity, burnt, amount0, amount1);
    CreditKeepsLiquidity(l.personals[i], burnt.protocols[j].growthInside);
  }

  /** A fee `decrease_liquidity` pays: what was owed, and what was earned since. */
  ghost function FeeDue(l: Ledger, i: nat, k: nat, updated: PoolState): nat
    requires i < |l.personals| && l.personals[i].protocol < |l.protocols| && k < 2
  {
    if CollectFeeOp in l.pool.disabled then 0
    else l.personals[i].owed[k] + if DecreaseOp in l.pool.disabled then 0 else Earns(l.(pool := updated), l.personals[i], k)
  }

  lemma FeesAreDue(l: Ledger, i: nat, liquidity: nat, burnt: Ledger, amount0: nat, amount1: nat, updated: PoolState)
    requires Inv(l) && i < |l.personals| && l.personals[i].protocol < |l.protocols|
    requires BurnAndCredit(l, i, liquidity) == Ok((burnt, amount0, amount1))
    requires DecreaseOp !in l.pool.disabled ==> UpdateRewardInfos(l.pool, l.now) == Ok(updated)
    ensures i < |burnt.personals| && InvOwing(burnt, amount0, amount1)
    ensures CollectFees(burnt, i).Ok?
    ensures CollectFees(burnt, i).value.1 == FeeDue(l, i, 0, updated) && CollectFees(burnt, i).value.2 == FeeDue(l, i, 1, updated)
  {
    hide Inv, InvOwing, BurnAndCredit, CollectFees, Earns, AmountsAt, RangeChanged, RangeGrowth, UpdateRewardInfos;
    BurnAndCreditKeeps(l, i, liquidity, burnt, amount0, amount1);
    var u := MayBurnIs(l, i, liquidity, burnt, amount0, amount1);
    BurnFrame(l, i, liquidity, burnt, amount0, amount1, u);
    FeesAreCollectable(burnt, i, amount0, amount1);
  }

  /** `decrease_liquidity` goes through where it is allowed, if the figures of the burn and the two payments fit, and the
      burn frees the caller's minima. */
  lemma DecreaseGoesThrough(l: Ledger, i: nat, liquidity: nat, min0: nat, min1: nat, amount0: nat, amount1: nat, updated: PoolState)
    requires Inv(l) && i < |l.personals| && l.personals[i].protocol < |l.protocols| && liquidity <= l.personals[i].liquidity
    requires !(DecreaseOp in l.pool.disabled && CollectFeeOp in l.pool.disabled && CollectRewardOp in l.pool.disabled)
    requires if DecreaseOp in l.pool.disabled then amount0 == amount1 == 0
             else && UpdateRewardInfos(l.pool, l.now) == Ok(updated) && ValidTable(l.table) && ValidRanges(l)
                  && ChangeFits(l, l.personals[i].protocol, 0 - liquidity, amount0, amount1, updated)
    requires liquidity > 0 ==> min0 <= amount0 && min1 <= amount1
    requires amount0 + FeeDue(l, i, 0, updated) < U64_LIMIT && amount1 + FeeDue(l, i, 1, updated) < U64_LIMIT
    ensures DecreaseLiquidity(l, i, liquidity, min0, min1).Ok?
  {
    hide Inv, InvOwing, BurnLiquidity, CollectFees, ChangeFits, FeeDue, ValidTable, UpdateRewardInfos, Credit, DecreaseLiquidity;
    if DecreaseOp !in l.pool.disabled { BurnGoesThrough(l, i, liquidity, amount0, amount1, updated); }
    var burnt := BurnAndCredit(l, i, liquidity).value.0;
    FeesAreDue(l, i, liquidity, burnt, amount0, amount1, updated);
    DecreaseAfterBurn(l, burnt, i, liquidity, min0, min1, amount0, amount1);
  }
}
