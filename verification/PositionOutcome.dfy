/** What opening, increasing, decreasing and collecting leave behind, figure by figure. */
module PositionOutcome {
  import opened Wrappers
  import opened FullMath
  import opened LiquidityMath
  import opened PoolTypes
  import opened TickGrowth
  import opened Ledger
  import opened Sums
  import opened Invariants
  import opened ClaimLemmas
  import opened PositionLemmas
  import opened Vaults
  import opened PositionSafety
  import opened DecreaseSafety
  import opened OpenSafety
  import opened RewardAdmin
  import opened RewardOutcome
  import opened Withdrawal
  import opened History
  import opened RoundTrips

  // -----------------------------------------------------------------------------------------
  // Amounts of a range

  /** Tokens for a liquidity between two prices at price `x`: token 0 above the price and token 1 below it, both rounded
      up, or both rounded down. */
  ghost predicate AmountsAt(x: nat, low: nat, high: nat, liquidity: nat, amount0: int, amount1: int, roundUp: bool) {
    var y := Inside(x, low, high);
    if roundUp then IsCeil(amount0, liquidity * Q64 * (high - y), high * y) && IsCeil(amount1, liquidity * (y - low), Q64)
    else IsFloor(amount0, liquidity * Q64 * (high - y), high * y) && IsFloor(amount1, liquidity * (y - low), Q64)
  }

  lemma NothingAt(low: nat, high: nat, liquidity: nat)
    requires 0 < low && 0 < high
    ensures IsCeil(0, liquidity * Q64 * (high - high), high * high) && IsFloor(0, liquidity * Q64 * (high - high), high * high)
    ensures IsCeil(0, liquidity * (low - low), Q64) && IsFloor(0, liquidity * (low - low), Q64)
  {
    assert high * high > 0 by { MulLt(0, high, high); }
    assert liquidity * Q64 * (high - high) == 0 && liquidity * (low - low) == 0;
  }

  /** The amounts of `get_delta_amounts_signed`, with tick and price in agreement. */
  lemma SignedAmountsAre(l: Ledger, lower: int, upper: int, delta: int, amount0: int, amount1: int)
    requires PriceInv(l) && MIN_TICK <= lower < upper <= MAX_TICK && delta != 0
    requires GetDeltaAmountsSigned(l.pool.tickCurrent, l.pool.sqrtPrice, lower, upper, Price(l.table, lower), Price(l.table, upper), delta)
          == Ok((amount0, amount1))
    ensures var low, high := Price(l.table, lower), Price(l.table, upper);
            if delta > 0 then AmountsAt(l.pool.sqrtPrice, low, high, delta, amount0, amount1, true)
            else AmountsAt(l.pool.sqrtPrice, low, high, -delta, -amount0, -amount1, false)
  {
    hide GetDeltaAmount0Unsigned, GetDeltaAmount1Unsigned, IsFloor, IsCeil, ValidTable;
    TableIsFull(l.table);
    PriceIsMonotone(l.table, lower, upper);
    TickTellsPrice(l, lower);
    TickTellsPrice(l, upper);
    var x, low, high := l.pool.sqrtPrice, Price(l.table, lower), Price(l.table, upper);
    var liquidity: nat, y := if delta > 0 then delta else -delta, Inside(x, low, high);
    NothingAt(low, high, liquidity);
    Amount0IsOneRounding(y, high, liquidity, delta > 0);
    Amount1IsOneRounding(low, y, liquidity, delta > 0);
  }

  // -----------------------------------------------------------------------------------------
  // A range and its two ends

  /** A slot at tick `t` after its liquidity changed by `delta` and its net by `netDelta`: it starts with the growth so
      far on its outside if it lies at or below the current tick, and it is cleared when nothing references it any more. */
  ghost predicate EndChanged(before: TickState, after: TickState, t: int, tickCurrent: int, delta: int, netDelta: int,
                             growth: Five) {
    && after.tick == t
    && (delta == 0 ==> after == before.(tick := t))
    && (delta != 0 ==>
          && after.liquidityGross == before.liquidityGross + delta
          && (if after.liquidityGross == 0 then after.liquidityNet == 0 && after.growthOutside == ZERO_FIVE
              else after.liquidityNet == before.liquidityNet + netDelta &&
                   after.growthOutside == if before.liquidityGross == 0 && t <= tickCurrent then growth else before.growthOutside))
  }

  lemma EndIs(before: TickState, tickCurrent: int, delta: int, growth: Five, upper: bool)
    requires UpdateTickUnlessZero(before, tickCurrent, delta, growth, upper).Ok?
    ensures var (t, flipped) := UpdateTickUnlessZero(before, tickCurrent, delta, growth, upper).value;
            EndChanged(before, Settled(t, delta, flipped), before.tick, tickCurrent, delta, if upper then -delta else delta, growth)
  {}

  /** What a range tallies for itself: the growth since it was last touched, for the liquidity it had. A growth that
      wrapped counts as none, an amount of u64::MAX or more is dropped. */
  function Tallied(inside: nat, last: nat, liquidity: nat): nat {
    var fee := (if last <= inside then inside - last else 0) * liquidity / 0x1_0000_0000_0000_0000;
    if fee < 0xFFFF_FFFF_FFFF_FFFF then fee else 0
  }

  /** The growth recorded for range `j` is that inside it: before liquidity leaves, after liquidity arrives. */
  ghost predicate RangeRecorded(l: Ledger, l': Ledger, j: nat, delta: int, updated: PoolState)
    requires j < |l.protocols| && j < |l'.protocols|
  {
    var p, p' := l.protocols[j], l'.protocols[j];
    && (forall c :: 0 <= c < 5 ==>
          p'.growthInside[c]
            == RangeGrowth(if delta > 0 then l' else l.(pool := updated), p, c) % 0x1_0000_0000_0000_0000_0000_0000_0000_0000)
    && (forall k :: 0 <= k < 2 ==> p'.feesOwed[k] == p.feesOwed[k] + Tallied(p'.growthInside[k], p.growthInside[k], p.liquidity))
  }

  lemma TalliedIs(inside: nat, last: nat, liquidity: nat)
    requires ProtocolFee(inside, last, liquidity).Ok?
    ensures ProtocolFee(inside, last, liquidity).value == Tallied(inside, last, liquidity)
  {
    hide MulDivFloor;
    var growth := if inside >= last then inside - last else 0;
    MulDivFloorIs(growth, liquidity, Q64, U256_LIMIT, U128_LIMIT);
    FloorIsQuotient(MulDivFloor128(growth, liquidity, Q64).value, growth * liquidity, Q64);
  }

  lemma ModifyTallies(table: PriceTable, pool: PoolState, protocol: ProtocolPosition, lower: TickState, upper: TickState,
                      delta: int,
                      timestamp: nat, m: Modified)
    requires ModifyPosition(table, pool, protocol, lower, upper, delta, timestamp) == Ok(m)
    ensures forall k :: 0 <= k < 2 ==>
              m.protocol.feesOwed[k] == protocol.feesOwed[k] + Tallied(m.protocol.growthInside[k], protocol.growthInside[k], protocol.liquidity)
  {
    hide UpdateRewardInfos, UpdateTickUnlessZero, GrowthInside, ProtocolFee, Tallied, GetDeltaAmountsSigned, PriceAt;
    var inside := m.protocol.growthInside;
    forall k | 0 <= k < 2
      ensures ProtocolFee(inside[k], protocol.growthInside[k], protocol.liquidity).Ok?
      ensures m.protocol.feesOwed[k] == protocol.feesOwed[k] + ProtocolFee(inside[k], protocol.growthInside[k], protocol.liquidity).value
    {}
    TalliedIs(inside[0], protocol.growthInside[0], protocol.liquidity);
    TalliedIs(inside[1], protocol.growthInside[1], protocol.liquidity);
  }

  lemma ModifyRecords(l: Ledger, j: nat, delta: int, m: Modified, updated: PoolState)
    requires Inv(l) && j < |l.protocols| && Modifies(l, j, delta, l.now, m) && UpdateRewardInfos(l.pool, l.now) == Ok(updated)
    ensures RangeRecorded(l, StoreModified(l, j, m), j, delta, updated)
  {
    hide HoldingsInv, AccrualInv, ClaimsCovered, LiquidityInv, GrowthInv, NamedSlots, PriceInv, VaultsInv, TotalsFit, ConfigInv,
      ModifyPosition, UpdateRewardInfos, RangeGrowth, Tallied;
    WithRewardsKeepsInv(l, l.now);
    ModifyRecordsGrowth(l, j, delta, l.now, m);
    var p := l.protocols[j];
    ModifyTallies(l.table, l.pool, p, NamedTick(l.ticks, p.tickLower), NamedTick(l.ticks, p.tickUpper), delta, l.now, m);
    var at := RecordedAt(l, j, delta, l.now, m);
    forall c | 0 <= c < 5
      ensures m.protocol.growthInside[c] == RangeGrowth(at, p, c) % 0x1_0000_0000_0000_0000_0000_0000_0000_0000
    {
      assert m.protocol.growthInside[c] == WrappingSub(RangeGrowth(at, p, c), 0);
    }
  }

  /** Rewards up to date, and `delta` more liquidity in range `j`, at its two ends and, if it is in range, in the pool. */
  ghost predicate RangeChanged(l: Ledger, l': Ledger, j: nat, delta: int, updated: PoolState)
    requires j < |l.protocols|
  {
    var p := l.protocols[j];
    && RewardsUpdated(l.pool, updated, l.now)
    && l'.pool.liquidity == l.pool.liquidity + (if p.tickLower <= l.pool.tickCurrent < p.tickUpper then delta else 0)
    && |l'.protocols| == |l.protocols| && (forall k :: 0 <= k < |l.protocols| && k != j ==> l'.protocols[k] == l.protocols[k])
    && l'.protocols[j].tickLower == p.tickLower && l'.protocols[j].tickUpper == p.tickUpper
    && l'.protocols[j].liquidity == p.liquidity + delta && RangeRecorded(l, l', j, delta, updated)
    && EndChanged(TickOf(l.ticks, p.tickLower), TickOf(l'.ticks, p.tickLower), p.tickLower, l.pool.tickCurrent,
                  delta, delta, updated.growthGlobal)
    && EndChanged(TickOf(l.ticks, p.tickUpper), TickOf(l'.ticks, p.tickUpper), p.tickUpper, l.pool.tickCurrent,
                  delta, -delta, updated.growthGlobal)
    && (forall t :: t != p.tickLower && t != p.tickUpper ==> TickOf(l'.ticks, t) == TickOf(l.ticks, t))
  }

  lemma NamedEnd(l: Ledger, t: int)
    requires NamedSlots(l)
    ensures NamedTick(l.ticks, t) == TickOf(l.ticks, t).(tick := t)
  {}

  /** A change of liquidity that went through. */
  lemma ModifiedIs(l: Ledger, j: nat, delta: int, m: Modified) returns (updated: PoolState)
    requires Inv(l) && j < |l.protocols| && Modifies(l, j, delta, l.now, m)
    ensures UpdateRewardInfos(l.pool, l.now) == Ok(updated)
    ensures RangeChanged(l, StoreModified(l, j, m), j, delta, updated) && m.pool == updated.(liquidity := m.pool.liquidity)
  {
    hide ModifyPosition, UpdateRewardInfos, UpdateTickUnlessZero, GrowthInside, LiquidityInv, GrowthInv, RewardUpdated, EndChanged,
      HoldingsInv, AccrualInv, ClaimsCovered, PriceInv, VaultsInv, TotalsFit, ConfigInv, RangeRecorded;
    var p := l.protocols[j];
    var lower, upper := NamedTick(l.ticks, p.tickLower), NamedTick(l.ticks, p.tickUpper);
    var a, flippedA, b, flippedB;
    updated, a, flippedA, b, flippedB := ModifyUnfolds(l.table, l.pool, p, lower, upper, delta, l.now, m);
    InfosUpdate(l.pool, l.now);
    ModifyRecords(l, j, delta, m, updated);
    NamedEnd(l, p.tickLower);
    NamedEnd(l, p.tickUpper);
    EndIs(lower, l.pool.tickCurrent, delta, updated.growthGlobal, false);
    EndIs(upper, l.pool.tickCurrent, delta, updated.growthGlobal, true);
    EndOfNamed(TickOf(l.ticks, p.tickLower), m.lower, p.tickLower, l.pool.tickCurrent, delta, delta, updated.growthGlobal);
    EndOfNamed(TickOf(l.ticks, p.tickUpper), m.upper, p.tickUpper, l.pool.tickCurrent, delta, -delta, updated.growthGlobal);
  }

  lemma EndOfNamed(before: TickState, after: TickState, t: int, tickCurrent: int, delta: int, netDelta: int, growth: Five)
    requires EndChanged(before.(tick := t), after, t, tickCurrent, delta, netDelta, growth)
    ensures EndChanged(before, after, t, tickCurrent, delta, netDelta, growth)
  {}

  // -----------------------------------------------------------------------------------------
  // A mint

  /** What is minted, and what it costs: the liquidity asked for, or the most a budget buys; rounded up, within the
      caller's maxima, and not nothing. */
  ghost predicate MintCosts(l: Ledger, j: nat, liquidity: nat, max0: nat, max1: nat, baseFlag: Option<bool>, minted: nat,
                            amount0: int, amount1: int)
    requires j < |l.protocols| && ValidTable(l.table) && ValidRanges(l)
  {
    var low, high := Price(l.table, l.protocols[j].tickLower), Price(l.table, l.protocols[j].tickUpper);
    && 0 < minted
    && (if liquidity > 0 then minted == liquidity
        else baseFlag.Some? && BuysMost(l.pool.sqrtPrice, low, high, baseFlag.value, if baseFlag.value then max0 else max1, minted))
    && AmountsAt(l.pool.sqrtPrice, low, high, minted, amount0, amount1, true)
    && 0 <= amount0 <= max0 && 0 <= amount1 <= max1 && (amount0 > 0 || amount1 > 0)
  }

  /** The state after a mint into range `j`, apart from the owners. */
  ghost predicate Mints(l: Ledger, l': Ledger, j: nat, minted: nat, amount0: int, amount1: int, updated: PoolState)
    requires j < |l.protocols|
  {
    && RangeChanged(l, l', j, minted, updated)
    && l'.pool == updated.(liquidity := l'.pool.liquidity)
    && l'.vaults == [l.vaults[0] + amount0, l.vaults[1] + amount1]
    && l' == l.(pool := l'.pool, ticks := l'.ticks, protocols := l'.protocols, personals := l'.personals, vaults := l'.vaults)
  }

  lemma MintedIs(l: Ledger, j: nat, minted: nat, m: Modified) returns (updated: PoolState)
    requires Inv(l) && j < |l.protocols| && 0 < minted && Modifies(l, j, minted, l.now, m)
    ensures Mints(l, Minted(l, j, m), j, minted, m.amount0, m.amount1, updated) && UpdateRewardInfos(l.pool, l.now) == Ok(updated)
    ensures AmountsAt(l.pool.sqrtPrice, Price(l.table, l.protocols[j].tickLower), Price(l.table, l.protocols[j].tickUpper),
                      minted, m.amount0, m.amount1, true)
  {
    hide HoldingsInv, AccrualInv, ClaimsCovered, LiquidityInv, GrowthInv, VaultsInv, TotalsFit, ConfigInv, Modifies,
      UpdateRewardInfos,
      RewardUpdated, EndChanged, AmountsAt, GetDeltaAmountsSigned, ValidTable;
    updated := ModifiedIs(l, j, minted, m);
    ModifyAmounts(l, j, minted, l.now, m);
    var p := l.protocols[j];
    NamedEnd(l, p.tickLower);
    NamedEnd(l, p.tickUpper);
    SignedAmountsAre(l, p.tickLower, p.tickUpper, minted, m.amount0, m.amount1);
  }

  lemma AddCosts(l: Ledger, j: nat, liquidity: nat, max0: nat, max1: nat, baseFlag: Option<bool>, l': Ledger)
    returns (minted: nat, m: Modified)
    requires j < |l.protocols| && AddLiquidity(l, j, liquidity, max0, max1, baseFlag, l.now) == Ok(l')
    ensures RequestedLiquidity(l.table, l.pool.sqrtPrice, l.protocols[j], liquidity, max0, max1, baseFlag) == Ok(minted) && 0 < minted
    ensures Modifies(l, j, minted, l.now, m) && l' == Minted(l, j, m)
    ensures 0 <= m.amount0 <= max0 && 0 <= m.amount1 <= max1 && (m.amount0 > 0 || m.amount1 > 0)
  {
    hide RequestedLiquidity, ModifyPosition;
    var p := l.protocols[j];
    minted := RequestedLiquidity(l.table, l.pool.sqrtPrice, p, liquidity, max0, max1, baseFlag).value;
    m := ModifyPosition(l.table, l.pool, p, NamedTick(l.ticks, p.tickLower), NamedTick(l.ticks, p.tickUpper), minted, l.now).value;
  }

  /** `add_liquidity` */
  lemma AddIs(l: Ledger, j: nat, liquidity: nat, max0: nat, max1: nat, baseFlag: Option<bool>, l': Ledger)
    returns (minted: nat, m: Modified, updated: PoolState)
    requires Inv(l) && j < |l.protocols| && AddLiquidity(l, j, liquidity, max0, max1, baseFlag, l.now) == Ok(l')
    ensures MintCosts(l, j, liquidity, max0, max1, baseFlag, minted, m.amount0, m.amount1)
    ensures Mints(l, l', j, minted, m.amount0, m.amount1, updated) && UpdateRewardInfos(l.pool, l.now) == Ok(updated)
    ensures Modifies(l, j, minted, l.now, m) && l' == Minted(l, j, m) && 0 < minted
    ensures SameEnds(l, l')
  {
    hide ClaimsInv, VaultsInv, TotalsFit, ConfigInv, Modifies, UpdateRewardInfos, AmountsAt, BuysMost, AddLiquidity,
      RangeChanged, ValidTable,
      SameEnds;
    minted, m := AddCosts(l, j, liquidity, max0, max1, baseFlag, l');
    updated := MintedIs(l, j, minted, m);
    RangesAreOrdered(l, j);
    ChangeKeepsEnds(l, l', j, minted, updated);
    if liquidity == 0 && baseFlag.Some? {
      BudgetBuysMost(l.table, l.pool.sqrtPrice, l.protocols[j], max0, max1, baseFlag.value, minted);
    }
  }

  /** Ranges keep their ends. */
  predicate SameEnds(l: Ledger, l': Ledger) {
    && |l'.protocols| == |l.protocols|
    && forall k :: 0 <= k < |l.protocols| ==>
         l'.protocols[k].tickLower == l.protocols[k].tickLower && l'.protocols[k].tickUpper == l.protocols[k].tickUpper
  }

  lemma ChangeKeepsEnds(l: Ledger, l': Ledger, j: nat, delta: int, updated: PoolState)
    requires j < |l.protocols| && RangeChanged(l, l', j, delta, updated)
    ensures SameEnds(l, l')
  {}

  lemma RangesAreOrdered(l: Ledger, j: nat)
    requires Inv(l) && j < |l.protocols|
    ensures ValidTable(l.table) && ValidRanges(l) && MIN_TICK <= l.protocols[j].tickLower < l.protocols[j].tickUpper <= MAX_TICK
  {
    hide LiquidityInv, NamedSlots, GrowthInv, HoldingsInv, AccrualInv, ClaimsCovered, VaultsInv;
  }

  // -----------------------------------------------------------------------------------------
  // Crediting

  /** What a position has earned in channel `c` since it was last credited, rounded down. An amount of u64::MAX is
      dropped. */
  ghost function Earns(l: Ledger, p: PersonalPosition, c: int): nat
    requires 0 <= c < 5 && p.protocol < |l.protocols|
  {
    var earned := Uncredited(l, p, c) * p.liquidity / 0x1_0000_0000_0000_0000;
    if earned == 0xFFFF_FFFF_FFFF_FFFF then 0 else earned
  }

  /** Owner `i` credited with what the range had earned in `at`, up to the growth inside the range there. */
  ghost predicate CreditedAt(at: Ledger, p: PersonalPosition, p': PersonalPosition)
    requires p.protocol < |at.protocols|
  {
    && p'.protocol == p.protocol
    && forall c :: 0 <= c < 5 ==>
         && p'.owed[c] == p.owed[c] + Earns(at, p, c)
         && p'.growthInside[c] == RangeGrowth(at, at.protocols[p.protocol], c) % 0x1_0000_0000_0000_0000_0000_0000_0000_0000
  }

  lemma CreditIsEarned(l: Ledger, i: nat, inside: Five)
    requires ClaimsInv(l) && TotalsFit(l.pool) && i < |l.personals| && RecordsGrowth(l, l.personals[i], inside)
    requires Credit(l.personals[i], inside).Ok?
    ensures CreditedAt(l, l.personals[i], Credit(l.personals[i], inside).value)
    ensures Credit(l.personals[i], inside).value.liquidity == l.personals[i].liquidity
  {
    hide ClaimsInv, TotalsFit, Uncredited, RangeGrowth, FloorDiv;
    CreditNeverFails(l, i, inside);
    var p := l.personals[i];
    var p' := Credit(p, inside).value;
    assert p.protocol < |l.protocols| by { PositionHasRange(l, i); }
    assert p' == p.(owed := p'.owed, growthInside := inside) by { CreditOnlyOwes(p, inside); }
    forall c | 0 <= c < 5
      ensures p'.owed[c] == p.owed[c] + Earns(l, p, c)
      ensures p'.growthInside[c] == RangeGrowth(l, l.protocols[p.protocol], c) % 0x1_0000_0000_0000_0000_0000_0000_0000_0000
    {
      FloorDivIs(Uncredited(l, p, c) * p.liquidity, Q64);
      FloorIsQuotient(Earned(l, p, c), Uncredited(l, p, c) * p.liquidity, Q64);
      assert inside[c] == WrappingSub(RangeGrowth(l, l.protocols[p.protocol], c), 0);
    }
  }

  lemma PositionHasRange(l: Ledger, i: nat)
    requires ClaimsInv(l) && i < |l.personals|
    ensures l.personals[i].protocol < |l.protocols|
  {}

  lemma CreditOnlyOwes(p: PersonalPosition, inside: Five)
    requires Credit(p, inside).Ok?
    ensures Credit(p, inside).value == p.(owed := Credit(p, inside).value.owed, growthInside := inside)
  {}

  // -----------------------------------------------------------------------------------------
  // Increasing

  /** A successful `increase_liquidity`: the mint, and an owner credited up to now who gets the liquidity asked for,
      which is nothing when a budget was given. */
  ghost predicate IncreaseDoes(l: Ledger, i: nat, liquidity: nat, max0: nat, max1: nat, baseFlag: Option<bool>, l': Ledger,
                               minted: nat, amount0: int, amount1: int, updated: PoolState)
    requires ValidTable(l.table) && ValidRanges(l) && i < |l.personals|
  {
    var j := l.personals[i].protocol;
    && IncreaseOp !in l.pool.disabled
    && MintCosts(l, j, liquidity, max0, max1, baseFlag, minted, amount0, amount1)
    && Mints(l, l', j, minted, amount0, amount1, updated)
    && |l'.personals| == |l.personals| && l'.personals == l.personals[i := l'.personals[i]]
    && l'.personals[i].liquidity == l.personals[i].liquidity + liquidity
    && CreditedAt(l.(pool := l'.pool, ticks := l'.ticks), l.personals[i], l'.personals[i])
  }

  lemma IncreaseIs(l: Ledger, i: nat, liquidity: nat, max0: nat, max1: nat, baseFlag: Option<bool>, l': Ledger)
    returns (minted: nat, amount0: int, amount1: int, updated: PoolState)
    requires Inv(l) && i < |l.personals| && IncreaseLiquidity(l, i, liquidity, max0, max1, baseFlag) == Ok(l')
    ensures ValidTable(l.table) && ValidRanges(l)
    ensures IncreaseDoes(l, i, liquidity, max0, max1, baseFlag, l', minted, amount0, amount1, updated)
  {
    hide ClaimsInv, PriceInv, VaultsInv, ConfigInv, TotalsFit, AddLiquidity, Modifies, MintCosts, RangeChanged, CreditedAt,
      Credit, MintEffect;
    assert l.personals[i].protocol < |l.protocols| by { PositionHasRange(l, i); }
    var j := l.personals[i].protocol;
    RangesAreOrdered(l, j);
    var added, p := IncreaseParts(l, i, liquidity, max0, max1, baseFlag, l');
    var m;
    minted, m, updated := AddIs(l, j, liquidity, max0, max1, baseFlag, added);
    amount0, amount1 := m.amount0, m.amount1;
    MintKeepsInv(l, j, minted, l.now, m);
    MintHasEffect(l, j, minted, l.now, m);
    assert RecordsGrowth(added, l.personals[i], added.protocols[j].growthInside) by { EffectRecords(l, j, minted, m, l.personals[i]); }
    CreditIsEarned(added, i, added.protocols[j].growthInside);
    CreditFrame(added, l.(pool := l'.pool, ticks := l'.ticks), l.personals[i], p, l'.personals[i]);
    RangeFrame(l, added, l', j, minted, updated);
  }

  lemma EffectRecords(l: Ledger, j: nat, minted: nat, m: Modified, p: PersonalPosition)
    requires j < |l.protocols| && MintEffect(l, j, minted, m) && p.protocol == j
    ensures Minted(l, j, m).personals == l.personals && j < |Minted(l, j, m).protocols|
    ensures RecordsGrowth(Minted(l, j, m), p, Minted(l, j, m).protocols[j].growthInside)
  {}

  /** Liquidity, vaults and owners play no part in what a range has earned. */
  lemma CreditFrame(l: Ledger, at: Ledger, p: PersonalPosition, p': PersonalPosition, q: PersonalPosition)
    requires p.protocol < |l.protocols| && CreditedAt(l, p, p') && q == p'.(liquidity := q.liquidity)
    requires at.pool == l.pool && at.ticks == l.ticks && SameEnds(at, l)
    ensures CreditedAt(at, p, q)
  {}

  lemma RangeFrame(l: Ledger, l1: Ledger, l2: Ledger, j: nat, delta: int, updated: PoolState)
    requires j < |l.protocols| && RangeChanged(l, l1, j, delta, updated)
    requires l2.pool == l1.pool && l2.ticks == l1.ticks && l2.protocols == l1.protocols
    ensures RangeChanged(l, l2, j, delta, updated)
  {}

  // -----------------------------------------------------------------------------------------
  // Opening

  /** The range with these ends: the one there is, or a new and empty one, whose two slots carry their index. */
  ghost predicate RangeFound(l: Ledger, found: Ledger, j: nat, tickLower: int, tickUpper: int) {
    && j < |found.protocols| && found.protocols[j].tickLower == tickLower && found.protocols[j].tickUpper == tickUpper
    && (if j < |l.protocols| then found == l
        else
          && NoRange(l, tickLower, tickUpper)
          && found == l.(protocols := l.protocols + [ProtocolPosition(tickLower, tickUpper, 0, [0, 0, 0, 0, 0], [0, 0])],
                         ticks := found.ticks)
          && (forall t :: TickOf(found.ticks, t)
                       == if t == tickLower || t == tickUpper then TickOf(l.ticks, t).(tick := t) else TickOf(l.ticks, t)))
  }

  predicate NoRange(l: Ledger, tickLower: int, tickUpper: int) {
    forall k :: 0 <= k < |l.protocols| ==> l.protocols[k].tickLower != tickLower || l.protocols[k].tickUpper != tickUpper
  }

  lemma {:induction false} NoneAmong(protocols: seq<ProtocolPosition>, tickLower: int, tickUpper: int, n: nat)
    requires n <= |protocols| && RangeIndex(protocols, tickLower, tickUpper, n) == n
    ensures forall k :: 0 <= k < n ==> protocols[k].tickLower != tickLower || protocols[k].tickUpper != tickUpper
  {
    if n > 0 { NoneAmong(protocols, tickLower, tickUpper, n - 1); }
  }

  lemma FoundIs(l: Ledger, tickLower: int, tickUpper: int)
    ensures var (found, j) := FindOrCreate(l, tickLower, tickUpper); RangeFound(l, found, j, tickLower, tickUpper)
  {
    var n := |l.protocols|;
    if RangeIndex(l.protocols, tickLower, tickUpper, n) == n { NoneAmong(l.protocols, tickLower, tickUpper, n); }
  }

  /** A successful `open_position`: the liquidity minted, if there is any, and a new owner of it who starts from the
      growth recorded for the range. */
  ghost predicate OpenDoes(l: Ledger, tickLower: int, tickUpper: int, liquidity: nat, max0: nat, max1: nat, baseFlag: Option<bool>,
                           l': Ledger, found: Ledger, j: nat, amount0: int, amount1: int, updated: PoolState)
    requires ValidTable(l.table)
  {
    && IncreaseOp !in l.pool.disabled
    && -443636 <= tickLower < tickUpper <= 443636
    && 0 < l.pool.tickSpacing && tickLower % l.pool.tickSpacing == 0 && tickUpper % l.pool.tickSpacing == 0
    && RangeFound(l, found, j, tickLower, tickUpper) && ValidRanges(found) && found.table == l.table
    && j < |l'.protocols|
    && l'.personals == l.personals + [PersonalPosition(j, liquidity, l'.protocols[j].growthInside, [0, 0, 0, 0, 0])]
    && (if liquidity == 0 then l' == found.(personals := l'.personals)
        else
          && MintCosts(found, j, liquidity, max0, max1, baseFlag, liquidity, amount0, amount1)
          && Mints(found, l', j, liquidity, amount0, amount1, updated)
          && forall c :: 0 <= c < 5 ==>
               l'.protocols[j].growthInside[c] == RangeGrowth(l', l'.protocols[j], c) % 0x1_0000_0000_0000_0000_0000_0000_0000_0000)
  }

  lemma FoundKeepsInv(l: Ledger, tickLower: int, tickUpper: int)
    requires Inv(l) && MIN_TICK <= tickLower < tickUpper <= MAX_TICK
    ensures var (found, j) := FindOrCreate(l, tickLower, tickUpper);
            Inv(found) && found.now == l.now && found.table == l.table && found.personals == l.personals
  {
    hide Inv, RangeIndex;
    FindOrCreateIs(l, tickLower, tickUpper);
    if FindOrCreate(l, tickLower, tickUpper).0 != l { CreatedKeepsInv(l, tickLower, tickUpper); }
  }

  lemma OpenChecks(l: Ledger, tickLower: int, tickUpper: int, liquidity: nat, max0: nat, max1: nat, baseFlag: Option<bool>)
    requires OpenPosition(l, tickLower, tickUpper, liquidity, max0, max1, baseFlag).Ok?
    ensures IncreaseOp !in l.pool.disabled
    ensures 0 < l.pool.tickSpacing && tickLower % l.pool.tickSpacing == 0 && tickUpper % l.pool.tickSpacing == 0
  {
    hide AddLiquidity, FindOrCreate;
  }

  lemma OpenIs(l: Ledger, tickLower: int, tickUpper: int, liquidity: nat, max0: nat, max1: nat, baseFlag: Option<bool>, l': Ledger)
    returns (found: Ledger, j: nat, amount0: int, amount1: int, updated: PoolState)
    requires Inv(l) && OpenPosition(l, tickLower, tickUpper, liquidity, max0, max1, baseFlag) == Ok(l')
    ensures ValidTable(l.table) && OpenDoes(l, tickLower, tickUpper, liquidity, max0, max1, baseFlag, l', found, j, amount0, amount1, updated)
  {
    hide Inv, OpenPosition, FindOrCreate, AddLiquidity, Modifies, MintCosts, RangeChanged, MintEffect, RangeFound;
    var added;
    found, j, added := OpenParts(l, tickLower, tickUpper, liquidity, max0, max1, baseFlag, l');
    OpenChecks(l, tickLower, tickUpper, liquidity, max0, max1, baseFlag);
    FoundIs(l, tickLower, tickUpper);
    FoundKeepsInv(l, tickLower, tickUpper);
    assert j < |found.protocols| by { FoundHasRange(l, found, j, tickLower, tickUpper); }
    RangesAreOrdered(found, j);
    updated, amount0, amount1 := l.pool, 0, 0;
    if liquidity > 0 {
      var minted, m;
      minted, m, updated := AddIs(found, j, liquidity, max0, max1, baseFlag, added);
      amount0, amount1 := m.amount0, m.amount1;
      assert minted == liquidity by { MintsWhatIsAsked(found, j, liquidity, max0, max1, baseFlag, minted, amount0, amount1); }
      MintHasEffect(found, j, liquidity, found.now, m);
      RangeFrame(found, added, l', j, liquidity, updated);
      var p := PersonalPosition(j, liquidity, added.protocols[j].growthInside, ZERO_FIVE);
      EffectRecords(found, j, liquidity, m, p);
      RecordedFrame(added, l', p);
    }
  }

  lemma FoundHasRange(l: Ledger, found: Ledger, j: nat, tickLower: int, tickUpper: int)
    requires RangeFound(l, found, j, tickLower, tickUpper)
    ensures j < |found.protocols|
  {}

  lemma MintsWhatIsAsked(l: Ledger, j: nat, liquidity: nat, max0: nat, max1: nat, baseFlag: Option<bool>, minted: nat,
                         amount0: int, amount1: int)
    requires j < |l.protocols| && ValidTable(l.table) && ValidRanges(l) && 0 < liquidity
    requires MintCosts(l, j, liquidity, max0, max1, baseFlag, minted, amount0, amount1)
    ensures minted == liquidity
  {}

  lemma RecordedFrame(l: Ledger, l': Ledger, p: PersonalPosition)
    requires p.protocol < |l.protocols| && RecordsGrowth(l, p, p.growthInside)
    requires l'.pool == l.pool && l'.ticks == l.ticks && l'.protocols == l.protocols
    ensures forall c :: 0 <= c < 5 ==>
              p.growthInside[c] == RangeGrowth(l', l'.protocols[p.protocol], c) % 0x1_0000_0000_0000_0000_0000_0000_0000_0000
  {
    hide RangeGrowth;
    forall c | 0 <= c < 5
      ensures p.growthInside[c] == RangeGrowth(l', l'.protocols[p.protocol], c) % 0x1_0000_0000_0000_0000_0000_0000_0000_0000
    {
      assert RangeGrowth(l', l'.protocols[p.protocol], c) == RangeGrowth(l, l.protocols[p.protocol], c) by {
        GrowthFrame(l, l', p.protocol, c);
      }
      assert p.growthInside[c] == WrappingSub(RangeGrowth(l, l.protocols[p.protocol], c), 0);
    }
  }

  lemma GrowthFrame(l: Ledger, l': Ledger, j: nat, c: int)
    requires j < |l.protocols| && 0 <= c < 5 && l'.pool == l.pool && l'.ticks == l.ticks && l'.protocols == l.protocols
    ensures RangeGrowth(l', l'.protocols[j], c) == RangeGrowth(l, l.protocols[j], c)
  {}
}
