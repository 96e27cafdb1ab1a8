/** Nobody is locked out: what a position earned is always credited, burning is only ever refused for
    a figure that outgrows its width, and the vaults hold enough for everyone to leave. */
module Withdrawal {
  import opened Wrappers
  import opened FullMath
  import opened LiquidityMath
  import opened PoolTypes
  import opened TickGrowth
  import opened Ledger
  import opened Sums
  import opened Invariants
  import opened ClaimLemmas
  import opened PositionLemmas
  import opened Vaults
  import opened PositionSafety
  import opened DecreaseSafety
  import opened RewardAdmin

  // -----------------------------------------------------------------------------------------
  // Crediting

  lemma ClaimIsCovered(l: Ledger, i: nat, c: int)
    requires ValidRanges(l) && ClaimsCovered(l) && i < |l.personals| && 0 <= c < 5
    ensures ClaimOf(l, l.personals[i], c) <= Q64 * Unclaimed(l.pool, c)
  {
    assert ChannelSolvent(l, c);
    forall k | 0 <= k < |l.personals| ensures 0 <= Claims(l, c)[k] {
      var p := l.personals[k];
      if p.liquidity > 0 { MulLe(0, p.liquidity, Uncredited(l, p, c)); }
    }
    TermAtMostSum(Claims(l, c), i);
  }

  /** What one channel owes a position by now, rounded down. */
  ghost function Earned(l: Ledger, p: PersonalPosition, c: int): nat
    requires 0 <= c < 5 && p.protocol < |l.protocols|
  {
    FloorDiv(Uncredited(l, p, c) * p.liquidity, Q64)
  }

  /** In a covered channel the credit is computed without any overflow, and it is the full earnings,
      except for earnings of exactly 2^64 - 1, which the strict range test drops. */
  lemma ChannelIsCredited(l: Ledger, i: nat, inside: Five, c: int)
    requires ValidRanges(l) && ClaimsCovered(l) && TotalsFit(l.pool) && i < |l.personals| && 0 <= c < 5
    requires RecordsGrowth(l, l.personals[i], inside)
    ensures var p := l.personals[i];
            var r := CreditChannel(p, inside, c);
            r.Ok? && Earned(l, p, c) <= U64_LIMIT - 1 && r.value == p.owed[c] + (if Earned(l, p, c) == U64_LIMIT - 1 then 0 else Earned(l, p, c))
  {
    var p := l.personals[i];
    var raw := RangeGrowth(l, l.protocols[p.protocol], c);
    AccruedOfWrapped(raw, p.growthInside[c]);
    ClaimIsCovered(l, i, c);
    var product, earned := Uncredited(l, p, c) * p.liquidity, Earned(l, p, c);
    FloorDivIs(product, Q64);
    CreditFits(p.owed[c], p.liquidity, Uncredited(l, p, c), Unclaimed(l.pool, c), earned);
  }

  lemma CreditFits(owed: nat, liquidity: nat, uncredited: nat, unclaimed: int, earned: nat)
    requires Q64 * owed + (if liquidity > 0 then liquidity * uncredited else 0) <= Q64 * unclaimed
    requires unclaimed < U64_LIMIT && IsFloor(earned, uncredited * liquidity, Q64)
    ensures owed + earned <= unclaimed && uncredited * liquidity < U256_LIMIT
  {
    assert liquidity == 0 ==> uncredited * liquidity == 0;
    assert uncredited * liquidity == liquidity * uncredited;
  }

  /** A position can always be brought up to date. It is credited with what it earned, except that an
      amount of exactly u64::MAX credits nothing; no larger one can arise. */
  lemma CreditNeverFails(l: Ledger, i: nat, inside: Five)
    requires ClaimsInv(l) && TotalsFit(l.pool) && i < |l.personals| && RecordsGrowth(l, l.personals[i], inside)
    ensures Credit(l.personals[i], inside).Ok?
    ensures var p, p' := l.personals[i], Credit(l.personals[i], inside).value;
            forall c :: 0 <= c < 5 ==>
              && Earned(l, p, c) <= U64_LIMIT - 1
              && p'.owed[c] == p.owed[c] + (if Earned(l, p, c) == U64_LIMIT - 1 then 0 else Earned(l, p, c))
  {
    hide ClaimsCovered, AccrualInv, HoldingsInv, LiquidityInv, NamedSlots, GrowthInv, CreditChannel, RecordsGrowth, Earned, TotalsFit;
    CreditIs(l.personals[i], inside, 0);
    forall c | 0 <= c < 5
      ensures var r := CreditChannel(l.personals[i], inside, c);
              r.Ok? && Earned(l, l.personals[i], c) <= U64_LIMIT - 1 &&
              r.value == l.personals[i].owed[c] + (if Earned(l, l.personals[i], c) == U64_LIMIT - 1 then 0 else Earned(l, l.personals[i], c))
    {
      ChannelIsCredited(l, i, inside, c);
    }
  }

  // -----------------------------------------------------------------------------------------
  // Burning

  lemma TickUpdateOnlyOverflows(t: TickState, tickCurrent: int, liquidity: nat, growth: Five, upper: bool)
    requires liquidity <= t.liquidityGross
    ensures var r := UpdateTickUnlessZero(t, tickCurrent, 0 - liquidity, growth, upper);
            r.Err? ==> r.error == Overflow
  {}

  lemma InsideNeverFails(lower: TickState, upper: TickState, tickCurrent: int, growth: Five, rewards: Rewards)
    requires forall c :: 0 <= c < 5 ==> lower.growthOutside[c] <= growth[c] && upper.growthOutside[c] <= growth[c]
    requires forall c :: 0 <= c < 5 && !Live(rewards, c) ==> growth[c] == 0
    ensures GrowthInside(lower, upper, tickCurrent, growth, rewards).Ok?
  {
    InsideIs(lower, upper, tickCurrent, growth, rewards, 0);
    forall c | 0 <= c < 5 ensures InsideChannel(lower, upper, tickCurrent, growth, rewards, c).Ok? {
      InsideIsRaw(lower, upper, tickCurrent, growth, rewards, c);
    }
  }

  lemma ProtocolUpdateOnlyOverflows(p: ProtocolPosition, liquidity: nat, inside: Five)
    requires MIN_TICK <= p.tickLower < p.tickUpper <= MAX_TICK && liquidity <= p.liquidity && 0 < p.liquidity
    ensures var r := UpdateProtocol(p, p.tickLower, p.tickUpper, 0 - liquidity, inside);
            r.Err? ==> r.error == Overflow
  {
    hide MulDivFloor;
    var grown0 := if inside[0] >= p.growthInside[0] then inside[0] - p.growthInside[0] else 0;
    var grown1 := if inside[1] >= p.growthInside[1] then inside[1] - p.growthInside[1] else 0;
    MulDivFloorIs(grown0, p.liquidity, Q64, U256_LIMIT, U128_LIMIT);
    MulDivFloorIs(grown1, p.liquidity, Q64, U256_LIMIT, U128_LIMIT);
  }

  lemma SignedOnlyOverflows(x: nat, y: nat, delta: int)
    requires 0 < x <= y && delta < 0
    ensures var r := GetDeltaAmount0Signed(x, y, delta); (r.Err? ==> r.error == Overflow) && (r.Ok? ==> r.value <= 0)
    ensures var r := GetDeltaAmount1Signed(x, y, delta); (r.Err? ==> r.error == Overflow) && (r.Ok? ==> r.value <= 0)
  {
    hide GetDeltaAmount0Unsigned, GetDeltaAmount1Unsigned;
    Amount0IsOneRounding(x, y, -delta, false);
    Amount1IsOneRounding(x, y, -delta, false);
  }

  lemma AmountsOnlyOverflow(cur: int, x: nat, lower: int, upper: int, low: nat, high: nat, delta: int)
    requires 0 < low < high && (lower <= cur < upper ==> low <= x <= high) && delta < 0
    ensures var r := GetDeltaAmountsSigned(cur, x, lower, upper, low, high, delta);
            (r.Err? ==> r.error == Overflow) && (r.Ok? ==> r.value.0 <= 0 && r.value.1 <= 0)
  {
    hide GetDeltaAmount0Signed, GetDeltaAmount1Signed;
    SignedOnlyOverflows(low, high, delta);
    if lower <= cur < upper {
      SignedOnlyOverflows(x, high, delta);
      SignedOnlyOverflows(low, x, delta);
    }
  }

  /** Both ends of a range with liquidity, and the growth between them, are in order. */
  lemma EndsInOrder(l: Ledger, j: nat, liquidity: nat)
    requires StructureInv(l) && j < |l.protocols| && 0 < l.protocols[j].liquidity && liquidity <= l.protocols[j].liquidity
    ensures var p := l.protocols[j];
            var lower, upper := TickOf(l.ticks, p.tickLower), TickOf(l.ticks, p.tickUpper);
            var a := UpdateTickUnlessZero(lower, l.pool.tickCurrent, 0 - liquidity, l.pool.growthGlobal, false);
            var b := UpdateTickUnlessZero(upper, l.pool.tickCurrent, 0 - liquidity, l.pool.growthGlobal, true);
            && lower.tick == p.tickLower && upper.tick == p.tickUpper
            && (a.Err? ==> a.error == Overflow) && (b.Err? ==> b.error == Overflow)
            && (a.Ok? ==> a.value.0.tick == p.tickLower) && (b.Ok? ==> b.value.0.tick == p.tickUpper)
            && (a.Ok? && b.Ok? ==>
                  GrowthInside(a.value.0, b.value.0, l.pool.tickCurrent, l.pool.growthGlobal, l.pool.rewards).Ok?)
            && (p.tickLower <= l.pool.tickCurrent < p.tickUpper ==> liquidity <= l.pool.liquidity)
  {
    hide GrowthInside, LiquidityInv;
    var p := l.protocols[j];
    LiveRangeIsInitialized(l, j);
    var lower, upper := TickOf(l.ticks, p.tickLower), TickOf(l.ticks, p.tickUpper);
    TickUpdateOnlyOverflows(lower, l.pool.tickCurrent, liquidity, l.pool.growthGlobal, false);
    TickUpdateOnlyOverflows(upper, l.pool.tickCurrent, liquidity, l.pool.growthGlobal, true);
    ActiveRangeWithinPool(l, j);
    var a := UpdateTickUnlessZero(lower, l.pool.tickCurrent, 0 - liquidity, l.pool.growthGlobal, false);
    var b := UpdateTickUnlessZero(upper, l.pool.tickCurrent, 0 - liquidity, l.pool.growthGlobal, true);
    if a.Ok? && b.Ok? {
      InsideNeverFails(a.value.0, b.value.0, l.pool.tickCurrent, l.pool.growthGlobal, l.pool.rewards);
    }
  }

  lemma ActiveRangeWithinPool(l: Ledger, j: nat)
    requires LiquidityInv(l) && j < |l.protocols|
    ensures var p := l.protocols[j]; p.tickLower <= l.pool.tickCurrent < p.tickUpper ==> p.liquidity <= l.pool.liquidity
  {
    TotalNonNegative(l.protocols, Active(l.pool.tickCurrent));
    assert Counted(Active(l.pool.tickCurrent), l.protocols[j]) <= Total(l.protocols, Active(l.pool.tickCurrent));
  }

  /** `update_position` for a burn. */
  lemma UpdateOnlyOverflows(l: Ledger, j: nat, liquidity: nat, timestamp: nat)
    requires TimesInv(l.pool.rewards, timestamp) && j < |l.protocols|
    requires UpdateRewardInfos(l.pool, timestamp).Ok? ==> StructureInv(WithRewards(l, timestamp))
    requires liquidity <= l.protocols[j].liquidity && 0 < l.protocols[j].liquidity
    ensures var p := l.protocols[j];
            var r := UpdatePosition(l.pool, p, TickOf(l.ticks, p.tickLower), TickOf(l.ticks, p.tickUpper), 0 - liquidity, timestamp);
            (r.Err? ==> r.error == Overflow) &&
            (UpdateRewardInfos(l.pool, timestamp).Ok? ==>
              p.tickLower == TickOf(l.ticks, p.tickLower).tick && p.tickUpper == TickOf(l.ticks, p.tickUpper).tick)
  {
    hide UpdateRewardInfos, UpdateTickUnlessZero, GrowthInside, UpdateProtocol, LiquidityInv, NamedSlots, GrowthInv;
    UpdateInfosKeepTimes(l.pool, timestamp, timestamp);
    if UpdateRewardInfos(l.pool, timestamp).Ok? {
      var l1, p := WithRewards(l, timestamp), l.protocols[j];
      InfosOnlyGrow(l.pool, timestamp);
      EndsInOrder(l1, j, liquidity);
      var a := UpdateTickUnlessZero(TickOf(l.ticks, p.tickLower), l.pool.tickCurrent, 0 - liquidity, l1.pool.growthGlobal, false);
      var b := UpdateTickUnlessZero(TickOf(l.ticks, p.tickUpper), l.pool.tickCurrent, 0 - liquidity, l1.pool.growthGlobal, true);
      if a.Ok? && b.Ok? {
        var inside := GrowthInside(a.value.0, b.value.0, l.pool.tickCurrent, l1.pool.growthGlobal, l1.pool.rewards).value;
        assert MIN_TICK <= l1.protocols[j].tickLower < l1.protocols[j].tickUpper <= MAX_TICK;
        ProtocolUpdateOnlyOverflows(p, liquidity, inside);
      }
    }
  }

  /** A burn of what the range holds is refused only for a figure that outgrows its width. */
  lemma BurnOnlyOverflows(l: Ledger, j: nat, liquidity: nat)
    requires Inv(l) && TimesInv(l.pool.rewards, l.now) && j < |l.protocols|
    requires liquidity <= l.protocols[j].liquidity && 0 < l.protocols[j].liquidity
    ensures BurnLiquidity(l, j, liquidity).Err? ==> BurnLiquidity(l, j, liquidity).error == Overflow
  {
    hide UpdatePosition, GetDeltaAmountsSigned, HoldingsInv, AccrualInv, ClaimsCovered, VaultsInv, TotalsFit, LiquidityInv, NamedSlots,
      GrowthInv, TimesInv, UpdateRewardInfos;
    var p := l.protocols[j];
    WithRewardsKeepsInv(l, l.now);
    UpdateOnlyOverflows(l, j, liquidity, l.now);
    UpdateNeedsRewards(l.pool, p, TickOf(l.ticks, p.tickLower), TickOf(l.ticks, p.tickUpper), 0 - liquidity, l.now);
    ActiveRangeWithinPool(l, j);
    assert MIN_TICK <= p.tickLower < p.tickUpper <= MAX_TICK;
    PriceIsMonotone(l.table, p.tickLower, p.tickUpper);
    TickTellsPrice(l, p.tickLower);
    TickTellsPrice(l, p.tickUpper);
    if liquidity > 0 {
      AmountsOnlyOverflow(l.pool.tickCurrent, l.pool.sqrtPrice, p.tickLower, p.tickUpper,
                          Price(l.table, p.tickLower), Price(l.table, p.tickUpper), 0 - liquidity);
    } else if UpdatePosition(l.pool, p, TickOf(l.ticks, p.tickLower), TickOf(l.ticks, p.tickUpper), 0, l.now).Ok? {
      UpdateMovesNoTokens(l.pool, p, TickOf(l.ticks, p.tickLower), TickOf(l.ticks, p.tickUpper), 0, l.now);
    }
  }

  lemma UpdateNeedsRewards(pool: PoolState, p: ProtocolPosition, lower: TickState, upper: TickState, delta: int, timestamp: nat)
    ensures UpdatePosition(pool, p, lower, upper, delta, timestamp).Ok? ==> UpdateRewardInfos(pool, timestamp).Ok?
  {}

  lemma UpdateMovesNoTokens(pool: PoolState, p: ProtocolPosition, lower: TickState, upper: TickState, delta: int, timestamp: nat)
    requires UpdatePosition(pool, p, lower, upper, delta, timestamp).Ok?
    ensures var m := UpdatePosition(pool, p, lower, upper, delta, timestamp).value; m.amount0 == 0 && m.amount1 == 0
  {}

  /** An owner can burn and be credited any part of the position, unless a figure outgrows its width. */
  lemma BurnAndCreditOnlyOverflows(l: Ledger, i: nat, liquidity: nat)
    requires Inv(l) && TimesInv(l.pool.rewards, l.now) && i < |l.personals| && l.personals[i].protocol < |l.protocols|
    requires 0 < l.personals[i].liquidity && liquidity <= l.personals[i].liquidity
    ensures BurnAndCredit(l, i, liquidity).Err? ==> BurnAndCredit(l, i, liquidity).error == Overflow
  {
    hide BurnLiquidity, Credit, Inv, TimesInv;
    var j := l.personals[i].protocol;
    HolderWithinRange(l, i);
    BurnOnlyOverflows(l, j, liquidity);
    if DecreaseOp !in l.pool.disabled && BurnLiquidity(l, j, liquidity).Ok? {
      var (burnt, amount0, amount1) := BurnLiquidity(l, j, liquidity).value;
      CreditAfterBurnNeverFails(l, i, liquidity, burnt, amount0, amount1);
      CreditKeepsLiquidity(l.personals[i], burnt.protocols[j].growthInside);
    }
  }

  lemma HolderWithinRange(l: Ledger, i: nat)
    requires Inv(l) && i < |l.personals|
    ensures l.personals[i].liquidity <= l.protocols[l.personals[i].protocol].liquidity
  {
    HolderOfLiveRange(l, i);
  }

  lemma CreditAfterBurnNeverFails(l: Ledger, i: nat, liquidity: nat, burnt: Ledger, amount0: nat, amount1: nat)
    requires Inv(l) && i < |l.personals| && l.personals[i].protocol < |l.protocols|
    requires BurnLiquidity(l, l.personals[i].protocol, liquidity) == Ok((burnt, amount0, amount1))
    ensures |burnt.protocols| == |l.protocols| && Credit(l.personals[i], burnt.protocols[l.personals[i].protocol].growthInside).Ok?
  {
    hide BurnLiquidity, Credit, ModifyPosition, UpdateRewardInfos, HoldingsInv, AccrualInv, ClaimsCovered, VaultsInv, PriceInv,
      LiquidityInv, NamedSlots, GrowthInv, TotalsFit;
    var j := l.personals[i].protocol;
    var m := BurnParts(l, j, liquidity, burnt, amount0, amount1);
    BurnFindsNamedTicks(l, j, liquidity, l.now, m);
    WithRewardsKeepsInv(l, l.now);
    ModifyMoves(l, j, 0 - liquidity, l.now, m);
    ModifyRecordsGrowth(l, j, 0 - liquidity, l.now, m);
    CreditNeverFails(WithRewards(l, l.now), i, m.protocol.growthInside);
  }

  // -----------------------------------------------------------------------------------------
  // Everyone leaving

  /** What burning all of position `i` at the current price would pay, per token. */
  ghost function FullBurn(l: Ledger, i: nat, token: int): int
    requires PriceInv(l) && ValidRanges(l) && i < |l.personals| && 0 <= token < 2
  {
    var p := l.protocols[l.personals[i].protocol];
    var r := GetDeltaAmountsSigned(l.pool.tickCurrent, l.pool.sqrtPrice, p.tickLower, p.tickUpper,
                                   Price(l.table, p.tickLower), Price(l.table, p.tickUpper), -(l.personals[i].liquidity as int));
    if l.personals[i].liquidity == 0 || r.Err? then 0 else if token == 0 then -r.value.0 else -r.value.1
  }

  ghost function FullBurns(l: Ledger, token: int): (r: seq<int>)
    requires PriceInv(l) && ValidRanges(l) && 0 <= token < 2
    ensures |r| == |l.personals| && forall i :: 0 <= i < |r| ==> r[i] == FullBurn(l, i, token)
  {
    seq(|l.personals|, i requires 0 <= i < |l.personals| => FullBurn(l, i, token))
  }

  /** The exact share of the curve behind every personal position. */
  ghost function OwnBacking(l: Ledger, token: int): (r: seq<real>)
    requires ValidTable(l.table) && ValidRanges(l)
    ensures |r| == |l.personals|
    ensures forall i :: 0 <= i < |r| ==> r[i] == Share(l.personals[i].liquidity, UnitOf(l, l.protocols[l.personals[i].protocol], token))
  {
    seq(|l.personals|, i requires 0 <= i < |l.personals| =>
      Share(l.personals[i].liquidity, UnitOf(l, l.protocols[l.personals[i].protocol], token)))
  }

  /** Liquidity the first `m` personal positions hold in range `j`. */
  function HeldTo(personals: seq<PersonalPosition>, j: int, m: nat): nat
    requires m <= |personals|
  {
    if m == 0 then 0 else HeldTo(personals, j, m - 1) + (if personals[m - 1].protocol == j then personals[m - 1].liquidity else 0)
  }

  lemma {:induction false} HeldToIsGroup(personals: seq<PersonalPosition>, j: int, m: nat)
    requires m <= |personals|
    ensures HeldTo(personals, j, m) == GroupTo(Owners(personals), Shares(personals), j, m)
  {
    if m > 0 { HeldToIsGroup(personals, j, m - 1); }
  }

  ghost function HeldBacking(l: Ledger, token: int, m: nat): (r: seq<real>)
    requires ValidTable(l.table) && ValidRanges(l) && m <= |l.personals|
    ensures |r| == |l.protocols|
    ensures forall j :: 0 <= j < |r| ==> r[j] == Share(HeldTo(l.personals, j, m), UnitOf(l, l.protocols[j], token))
  {
    seq(|l.protocols|, j requires 0 <= j < |l.protocols| => Share(HeldTo(l.personals, j, m), UnitOf(l, l.protocols[j], token)))
  }

  lemma {:induction false} RealSumToZero(s: seq<real>, n: nat)
    requires n <= |s| && forall k :: 0 <= k < n ==> s[k] == 0.0
    ensures RealSumTo(s, n) == 0.0
  {
    if n > 0 { RealSumToZero(s, n - 1); }
  }

  lemma {:induction false} RealSumToLe(s: seq<real>, t: seq<real>, n: nat)
    requires n <= |s| && n <= |t| && forall k :: 0 <= k < n ==> s[k] <= t[k]
    ensures RealSumTo(s, n) <= RealSumTo(t, n)
  {
    if n > 0 { RealSumToLe(s, t, n - 1); }
  }

  /** Counting one more position changes its own range's entry only. */
  lemma OneMoreHolder(l: Ledger, token: int, m: nat)
    requires ValidTable(l.table) && ValidRanges(l) && 0 < m <= |l.personals|
    ensures RealSum(HeldBacking(l, token, m)) == RealSum(HeldBacking(l, token, m - 1)) + OwnBacking(l, token)[m - 1]
  {
    hide UnitOf, ValidTable, Share;
    var p := l.personals[m - 1];
    ShareAdd(HeldTo(l.personals, p.protocol, m - 1), p.liquidity, UnitOf(l, l.protocols[p.protocol], token));
    RealSumPoint(HeldBacking(l, token, m - 1), HeldBacking(l, token, m), p.protocol);
  }

  /** Grouped by range, the positions' shares add up to the same. */
  lemma {:induction false} OwnBackingByRange(l: Ledger, token: int, m: nat)
    requires ValidTable(l.table) && ValidRanges(l) && m <= |l.personals|
    ensures RealSumTo(OwnBacking(l, token), m) == RealSum(HeldBacking(l, token, m))
  {
    hide UnitOf;
    if m == 0 {
      RealSumToZero(HeldBacking(l, token, 0), |l.protocols|);
    } else {
      OwnBackingByRange(l, token, m - 1);
      OneMoreHolder(l, token, m);
    }
  }

  lemma UnitOfNonNegative(l: Ledger, p: ProtocolPosition, token: int)
    requires ValidTable(l.table) && MIN_TICK <= p.tickLower < p.tickUpper <= MAX_TICK
    ensures 0.0 <= UnitOf(l, p, token)
  {
    PriceIsMonotone(l.table, p.tickLower, p.tickUpper);
    UnitNonNegative(token, l.pool.sqrtPrice, Price(l.table, p.tickLower), Price(l.table, p.tickUpper));
  }

  /** Owners' shares are within the ranges' backing. */
  lemma OwnBackingIsBacked(l: Ledger, token: int)
    requires ValidTable(l.table) && ValidRanges(l) && HoldingsInv(l)
    ensures RealSum(OwnBacking(l, token)) <= RealSum(Backing(l, token))
  {
    hide UnitOf;
    var n := |l.personals|;
    OwnBackingByRange(l, token, n);
    forall j | 0 <= j < |l.protocols| ensures HeldBacking(l, token, n)[j] <= Backing(l, token)[j] {
      var p := l.protocols[j];
      HeldToIsGroup(l.personals, j, n);
      assert Held(l.personals, j) <= p.liquidity;
      var held := HeldTo(l.personals, j, n);
      UnitOfNonNegative(l, p, token);
      ShareAdd(held, p.liquidity - held, UnitOf(l, p, token));
      ShareNonNegative(p.liquidity - held, UnitOf(l, p, token));
    }
    RealSumToLe(HeldBacking(l, token, n), Backing(l, token), |l.protocols|);
  }

  lemma FullBurnIsBacked(l: Ledger, i: nat, token: int)
    requires PriceInv(l) && ValidRanges(l) && i < |l.personals| && 0 <= token < 2
    ensures FullBurn(l, i, token) as real <= OwnBacking(l, token)[i]
  {
    hide PriceInv, UnitOf, GetDeltaAmountsSigned;
    var p := l.protocols[l.personals[i].protocol];
    assert ValidTable(l.table) by { PriceHasTable(l); }
    UnitOfNonNegative(l, p, token);
    ShareNonNegative(l.personals[i].liquidity, UnitOf(l, p, token));
    var r := GetDeltaAmountsSigned(l.pool.tickCurrent, l.pool.sqrtPrice, p.tickLower, p.tickUpper,
                                   Price(l.table, p.tickLower), Price(l.table, p.tickUpper), -(l.personals[i].liquidity as int));
    if l.personals[i].liquidity > 0 && r.Ok? { RangeAmountsCover(l, p, -(l.personals[i].liquidity as int)); }
  }

  lemma PriceHasTable(l: Ledger)
    requires PriceInv(l)
    ensures ValidTable(l.table)
  {}

  /** Each vault holds what burning every position would pay, all unclaimed trading fees, and the
      protocol's and the fund's fees, together. */
  lemma VaultsPayEveryone(l: Ledger, token: int)
    requires Inv(l) && 0 <= token < 2
    ensures Sum(FullBurns(l, token)) + Unclaimed(l.pool, token) + l.pool.protocolFees[token] + l.pool.fundFees[token] <= l.vaults[token]
  {
    hide LiquidityInv, NamedSlots, GrowthInv, AccrualInv, ClaimsCovered, FullBurn, OwnBacking, Backing;
    var n := |l.personals|;
    assert VaultSolvent(l, token);
    OwnBackingIsBacked(l, token);
    forall i | 0 <= i < n ensures FullBurns(l, token)[i] as real <= OwnBacking(l, token)[i] {
      FullBurnIsBacked(l, i, token);
    }
    FloorsBelow(FullBurns(l, token), OwnBacking(l, token), n);
  }
}
