/** The state of one pool with its ticks, positions and vaults, and the instructions that change
    it, as functions that either return the committed state or the error that aborts them. Tick
    arrays and their bitmaps are the concern of the concrete pool. */
module Ledger {
  import opened Wrappers
  import opened FullMath
  import opened LiquidityMath
  import opened PoolTypes
  import opened TickGrowth

  datatype Ledger = Ledger(
    table: PriceTable,
    config: AmmConfig,
    pool: PoolState,
    ticks: map<int, TickState>,
    protocols: seq<ProtocolPosition>,
    personals: seq<PersonalPosition>,
    vaults: Balances,
    rewardVaults: Three,
    now: nat)

  // -----------------------------------------------------------------------------------------
  // Rewards

  /** Reward `i` of `update_reward_infos`: growth and emission since the last update. */
  function UpdateReward(pool: PoolState, i: nat, timestamp: nat): Result<PoolState>
    requires i < REWARD_NUM
  {
    var r := pool.rewards[i];
    if !r.initialized || timestamp <= r.openTime then Ok(pool)
    else
      var latest := Min(timestamp, r.endTime);
      var updated := pool.(rewards := pool.rewards[i := r.(lastUpdateTime := latest)]);
      if pool.liquidity == 0 then Ok(updated)
      else
        var timeDelta :- CheckedSub(latest, r.lastUpdateTime);
        var growthDelta :- MulDivFloor256(timeDelta, r.emissionsPerSecond, pool.liquidity);
        var growth :- Narrow(pool.growthGlobal[2 + i] + growthDelta, U128_LIMIT);
        var emitted :- MulDivCeil128(timeDelta, r.emissionsPerSecond, Q64);
        var emitted64 :- Narrow(emitted, U64_LIMIT);
        var total :- Narrow(pool.total[2 + i] + emitted64, U64_LIMIT);
        Ok(updated.(growthGlobal := pool.growthGlobal[2 + i := growth], total := pool.total[2 + i := total]))
  }

  /** `update_reward_infos` from reward `i` on. */
  function UpdateRewardsFrom(pool: PoolState, i: nat, timestamp: nat): Result<PoolState>
    requires i <= REWARD_NUM
    decreases REWARD_NUM - i, timestamp
  {
    if i == REWARD_NUM then Ok(pool)
    else
      var next :- UpdateReward(pool, i, timestamp);
      UpdateRewardsFrom(next, i + 1, timestamp)
  }

  function UpdateRewardInfos(pool: PoolState, timestamp: nat): Result<PoolState> {
    UpdateRewardsFrom(pool, 0, timestamp)
  }

  // -----------------------------------------------------------------------------------------
  // Positions

  /** Fees a protocol position tallies for itself; nothing is ever paid from this tally. */
  function ProtocolFee(inside: nat, last: nat, liquidity: nat): Result<nat> {
    var fee :- MulDivFloor128(if inside >= last then inside - last else 0, liquidity, Q64);
    Ok(ToUnderflowU64(fee))
  }

  /** `ProtocolPositionState::update` */
  function UpdateProtocol(p: ProtocolPosition, tickLower: int, tickUpper: int, delta: int, inside: Five)
    : Result<ProtocolPosition>
  {
    var _ :- Require(MIN_TICK <= tickLower <= MAX_TICK, TickOverflow);
    var _ :- Require(MIN_TICK <= tickUpper <= MAX_TICK, TickOverflow);
    var liquidity :- if delta == 0 then (if p.liquidity > 0 then Ok(p.liquidity) else Err(InvalidLiquidity))
                     else AddDelta(p.liquidity, delta);
    var fee0 :- ProtocolFee(inside[0], p.growthInside[0], p.liquidity);
    var fee1 :- ProtocolFee(inside[1], p.growthInside[1], p.liquidity);
    var owed0 :- Narrow(p.feesOwed[0] + fee0, U64_LIMIT);
    var owed1 :- Narrow(p.feesOwed[1] + fee1, U64_LIMIT);
    Ok(ProtocolPosition(tickLower, tickUpper, liquidity, inside, [owed0, owed1]))
  }

  datatype Modified = Modified(pool: PoolState, protocol: ProtocolPosition, lower: TickState, upper: TickState,
                               amount0: int, amount1: int, flippedLower: bool, flippedUpper: bool)

  /** Ticks are updated only by a non-zero change of liquidity. */
  function UpdateTickUnlessZero(t: TickState, tickCurrent: int, delta: int, growthGlobal: Five, upper: bool)
    : Result<(TickState, bool)>
  {
    if delta != 0 then UpdateTick(t, tickCurrent, delta, growthGlobal, upper) else Ok((t, false))
  }

  /** A tick that lost its last liquidity is cleared. */
  function Settled(t: TickState, delta: int, flipped: bool): TickState {
    if delta < 0 && flipped then ClearTick(t) else t
  }

  /** `update_position` */
  function UpdatePosition(pool: PoolState, protocol: ProtocolPosition, lower: TickState, upper: TickState,
                          delta: int, timestamp: nat): Result<Modified>
  {
    var updated :- UpdateRewardInfos(pool, timestamp);
    var (lower1, flippedLower) :- UpdateTickUnlessZero(lower, pool.tickCurrent, delta, updated.growthGlobal, false);
    var (upper1, flippedUpper) :- UpdateTickUnlessZero(upper, pool.tickCurrent, delta, updated.growthGlobal, true);
    var inside :- GrowthInside(lower1, upper1, pool.tickCurrent, updated.growthGlobal, updated.rewards);
    var protocol1 :- UpdateProtocol(protocol, lower1.tick, upper1.tick, delta, inside);
    Ok(Modified(updated, protocol1, Settled(lower1, delta, flippedLower), Settled(upper1, delta, flippedUpper),
                0, 0, flippedLower, flippedUpper))
  }

  /** `modify_position` */
  function ModifyPosition(table: PriceTable, pool: PoolState, protocol: ProtocolPosition, lower: TickState,
                          upper: TickState, delta: int, timestamp: nat): Result<Modified>
  {
    var m :- UpdatePosition(pool, protocol, lower, upper, delta, timestamp);
    if delta == 0 then Ok(m)
    else
      var priceLower :- PriceAt(table, lower.tick);
      var priceUpper :- PriceAt(table, upper.tick);
      var (amount0, amount1) :- GetDeltaAmountsSigned(pool.tickCurrent, pool.sqrtPrice, lower.tick, upper.tick,
                                                      priceLower, priceUpper, delta);
      var liquidity :- if lower.tick <= pool.tickCurrent < upper.tick then AddDelta(pool.liquidity, delta)
                       else Ok(pool.liquidity);
      Ok(m.(pool := m.pool.(liquidity := liquidity), amount0 := amount0, amount1 := amount1))
  }

  /** Write both ticks and the protocol position back. */
  function StoreModified(l: Ledger, j: nat, m: Modified): Ledger
    requires j < |l.protocols|
  {
    var p := l.protocols[j];
    l.(pool := m.pool,
       ticks := l.ticks[p.tickLower := m.lower][p.tickUpper := m.upper],
       protocols := l.protocols[j := m.protocol])
  }

  /** The liquidity a caller asked for, or what a single-token budget buys. */
  function RequestedLiquidity(table: PriceTable, sqrtPrice: nat, p: ProtocolPosition, liquidity: nat,
                              max0: nat, max1: nat, baseFlag: Option<bool>): Result<nat>
  {
    if liquidity != 0 then Ok(liquidity)
    else
      match baseFlag
      case None => Err(AssertionFailed)
      case Some(base0) =>
        var priceLower :- PriceAt(table, p.tickLower);
        var priceUpper :- PriceAt(table, p.tickUpper);
        if base0 then GetLiquidityFromSingleAmount0(sqrtPrice, priceLower, priceUpper, max0)
        else GetLiquidityFromSingleAmount1(sqrtPrice, priceLower, priceUpper, max1)
  }

  /** The slot of a tick, with the index filled in where it is still zero. */
  function NamedTick(ticks: map<int, TickState>, tick: int): TickState {
    var t := TickOf(ticks, tick);
    if t.tick == 0 then t.(tick := tick) else t
  }

  /** Write a mint back and take its tokens in. */
  function Minted(l: Ledger, j: nat, m: Modified): Ledger
    requires j < |l.protocols|
  {
    StoreModified(l, j, m).(vaults := [l.vaults[0] + m.amount0, l.vaults[1] + m.amount1])
  }

  /** `add_liquidity` on the protocol position `j`. */
  function AddLiquidity(l: Ledger, j: nat, liquidity: nat, max0: nat, max1: nat, baseFlag: Option<bool>,
                        timestamp: nat): (r: Result<Ledger>)
    requires j < |l.protocols|
    ensures r.Ok? ==> |r.value.protocols| == |l.protocols| && r.value.personals == l.personals
  {
    var p := l.protocols[j];
    var amount :- RequestedLiquidity(l.table, l.pool.sqrtPrice, p, liquidity, max0, max1, baseFlag);
    var _ :- Require(amount > 0, AssertionFailed);
    var delta :- Narrow(amount, I128_LIMIT);
    var m :- ModifyPosition(l.table, l.pool, p, NamedTick(l.ticks, p.tickLower), NamedTick(l.ticks, p.tickUpper),
                            delta, timestamp);
    var _ :- Require(m.amount0 > 0 || m.amount1 > 0, ForbidBothZeroForSupplyLiquidity);
    var _ :- Require(m.amount0 >= 0 && m.amount1 >= 0, Overflow);
    var _ :- Require(max0 >= m.amount0 && max1 >= m.amount1, PriceSlippageCheck);
    Ok(Minted(l, j, m))
  }

  /** One channel of `calculate_latest_token_fees` and `update_rewards`. */
  function CreditChannel(p: PersonalPosition, inside: Five, c: int): Result<nat>
    requires 0 <= c < 5
  {
    var earned :- MulDivFloor128(WrappingSub(inside[c], p.growthInside[c]), p.liquidity, Q64);
    Narrow(p.owed[c] + ToUnderflowU64(earned), U64_LIMIT)
  }

  function CreditFrom(p: PersonalPosition, inside: Five, c: nat): (r: Result<seq<nat>>)
    requires c <= 5
    ensures r.Ok? ==> |r.value| == 5 - c
    decreases 5 - c, inside
  {
    if c == 5 then Ok([])
    else
      var x :- CreditChannel(p, inside, c);
      var rest :- CreditFrom(p, inside, c + 1);
      Ok([x] + rest)
  }

  /** Credit what the position earned, and record the growth inside its range. */
  function Credit(p: PersonalPosition, inside: Five): Result<PersonalPosition> {
    var owed :- CreditFrom(p, inside, 0);
    Ok(p.(owed := owed, growthInside := inside))
  }

  lemma {:induction false} CreditIs(p: PersonalPosition, inside: Five, c: nat)
    requires c <= 5
    ensures var r := CreditFrom(p, inside, c);
            (r.Ok? ==> forall d :: c <= d < 5 ==> CreditChannel(p, inside, d) == Ok(r.value[d - c])) &&
            ((forall d :: c <= d < 5 ==> CreditChannel(p, inside, d).Ok?) ==> r.Ok?)
    decreases 5 - c
  {
    if c < 5 { CreditIs(p, inside, c + 1); }
  }

  lemma {:induction false} CreditFails(p: PersonalPosition, inside: Five, c: nat, d: nat)
    requires c <= d < 5 && CreditChannel(p, inside, d).Err?
    ensures CreditFrom(p, inside, c).Err?
    decreases d - c
  {
    if c < d { CreditFails(p, inside, c + 1, d); }
  }

  /** `increase_liquidity`: the personal position is credited with the requested liquidity, which
      is zero when a budget was given instead. */
  function IncreaseLiquidity(l: Ledger, i: nat, liquidity: nat, max0: nat, max1: nat, baseFlag: Option<bool>)
    : Result<Ledger>
    requires i < |l.personals| && l.personals[i].protocol < |l.protocols|
  {
    var _ :- Require(IncreaseOp !in l.pool.disabled, NotApproved);
    var j := l.personals[i].protocol;
    var added :- AddLiquidity(l, j, liquidity, max0, max1, baseFlag, l.now);
    var p :- Credit(l.personals[i], added.protocols[j].growthInside);
    var total :- Narrow(p.liquidity + liquidity, U128_LIMIT);
    Ok(WithPersonal(added, i, p.(liquidity := total)))
  }

  function WithPersonal(l: Ledger, i: nat, p: PersonalPosition): Ledger
    requires i < |l.personals|
  {
    l.(personals := l.personals[i := p])
  }

  /** `burn_liquidity` on the protocol position `j`; also returns the two amounts. */
  function BurnLiquidity(l: Ledger, j: nat, liquidity: nat): Result<(Ledger, nat, nat)>
    requires j < |l.protocols|
  {
    var p := l.protocols[j];
    var magnitude :- Narrow(liquidity, I128_LIMIT);
    var m :- ModifyPosition(l.table, l.pool, p, TickOf(l.ticks, p.tickLower), TickOf(l.ticks, p.tickUpper),
                            0 - magnitude, l.now);
    var _ :- Require(m.amount0 <= 0 && m.amount1 <= 0, Overflow);
    Ok((StoreModified(l, j, m), -m.amount0, -m.amount1))
  }

  /** `decrease_liquidity_and_update_position`, first half: burn and credit, unless switched off. */
  function BurnAndCredit(l: Ledger, i: nat, liquidity: nat): Result<(Ledger, nat, nat)>
    requires i < |l.personals| && l.personals[i].protocol < |l.protocols|
  {
    if DecreaseOp in l.pool.disabled then Ok((l, 0, 0))
    else
      var j := l.personals[i].protocol;
      var (burnt, amount0, amount1) :- BurnLiquidity(l, j, liquidity);
      var p :- Credit(l.personals[i], burnt.protocols[j].growthInside);
      var rest :- CheckedSub(p.liquidity, liquidity);
      Ok((WithPersonal(burnt, i, p.(liquidity := rest)), amount0, amount1))
  }

  /** One channel paid out to a personal position: the claim is recorded on both sides. */
  function Claim(l: Ledger, i: nat, c: int, amount: nat): Result<Ledger>
    requires i < |l.personals| && 0 <= c < 5
  {
    var p := l.personals[i];
    var left :- CheckedSub(p.owed[c], amount);
    var claimed :- Narrow(l.pool.claimed[c] + amount, U64_LIMIT);
    Ok(l.(pool := l.pool.(claimed := l.pool.claimed[c := claimed]),
          personals := l.personals[i := p.(owed := p.owed[c := left])]))
  }

  /** Second half: collect the owed fees, guarded by the unclaimed totals. */
  function CollectFees(l: Ledger, i: nat): Result<(Ledger, nat, nat)>
    requires i < |l.personals|
  {
    if CollectFeeOp in l.pool.disabled then Ok((l, 0, 0))
    else
      var fee0, fee1 := l.personals[i].owed[0], l.personals[i].owed[1];
      var unclaimed0 :- CheckedSub(l.pool.total[0], l.pool.claimed[0]);
      var unclaimed1 :- CheckedSub(l.pool.total[1], l.pool.claimed[1]);
      var _ :- Require(unclaimed0 >= fee0, RequireViolated);
      var _ :- Require(unclaimed1 >= fee1, RequireViolated);
      var after0 :- Claim(l, i, 0, fee0);
      var after1 :- Claim(after0, i, 1, fee1);
      Ok((after1, fee0, fee1))
  }

  /** A transfer out of the pool's vaults. */
  function PayOut(l: Ledger, amount0: nat, amount1: nat): Result<Ledger> {
    if amount0 <= l.vaults[0] && amount1 <= l.vaults[1] then
      Ok(l.(vaults := [l.vaults[0] - amount0, l.vaults[1] - amount1]))
    else Err(InsufficientFunds)
  }

  /** `check_unclaimed_fees_and_vault`: stop fee collection when the unclaimed fees reach the vault. */
  function CheckUnclaimedFees(l: Ledger): Result<Ledger> {
    var unclaimed0 :- CheckedSub(l.pool.total[0], l.pool.claimed[0]);
    var unclaimed1 :- CheckedSub(l.pool.total[1], l.pool.claimed[1]);
    if (unclaimed0 >= l.vaults[0] && l.vaults[0] != 0) || (unclaimed1 >= l.vaults[1] && l.vaults[1] != 0) then
      Ok(l.(pool := l.pool.(disabled := l.pool.disabled + {CollectFeeOp})))
    else Ok(l)
  }

  /** `check_unclaimed_reward`, `add_reward_clamed` and the transfer for reward `k`. */
  function CollectReward(l: Ledger, i: nat, k: nat): Result<Ledger>
    requires i < |l.personals| && k < REWARD_NUM
  {
    var owed := l.personals[i].owed[2 + k];
    if owed == 0 then Ok(l)
    else
      var unclaimed :- CheckedSub(l.pool.total[2 + k], l.pool.claimed[2 + k]);
      var _ :- Require(unclaimed >= owed, RequireViolated);
      var amount := Min(owed, l.rewardVaults[k]);
      var claimed :- Claim(l, i, 2 + k, amount);
      Ok(claimed.(rewardVaults := l.rewardVaults[k := l.rewardVaults[k] - amount]))
  }

  /** `collect_rewards` from reward `k` on; the accounts passed cover the initialized rewards, which
      are the first ones. */
  function CollectRewardsFrom(l: Ledger, i: nat, k: nat): (r: Result<Ledger>)
    requires i < |l.personals| && k <= REWARD_NUM
    decreases REWARD_NUM - k, i
  {
    if k == REWARD_NUM || !l.pool.rewards[k].initialized then Ok(l)
    else
      var next :- CollectReward(l, i, k);
      CollectRewardsFrom(next, i, k + 1)
  }

  /** `decrease_liquidity` */
  function DecreaseLiquidity(l: Ledger, i: nat, liquidity: nat, min0: nat, min1: nat): Result<Ledger>
    requires i < |l.personals| && l.personals[i].protocol < |l.protocols|
  {
    var _ :- Require(liquidity <= l.personals[i].liquidity, AssertionFailed);
    var _ :- Require(!({DecreaseOp, CollectFeeOp, CollectRewardOp} <= l.pool.disabled), NotApproved);
    var (burnt, amount0, amount1) :- BurnAndCredit(l, i, liquidity);
    var (paid, fee0, fee1) :- CollectFees(burnt, i);
    var _ :- Require(liquidity > 0 ==> amount0 >= min0 && amount1 >= min1, PriceSlippageCheck);
    var out0 :- Narrow(amount0 + fee0, U64_LIMIT);
    var out1 :- Narrow(amount1 + fee1, U64_LIMIT);
    var sent :- PayOut(paid, out0, out1);
    var checked :- CheckUnclaimedFees(sent);
    if CollectRewardOp in checked.pool.disabled then Ok(checked) else CollectRewardsFrom(checked, i, 0)
  }

  /** `open_position`: find or create the protocol position of the range, add the liquidity, and
      record a new personal position. */
  function OpenPosition(l: Ledger, tickLower: int, tickUpper: int, liquidity: nat, max0: nat, max1: nat,
                        baseFlag: Option<bool>): Result<Ledger>
  {
    var _ :- Require(IncreaseOp !in l.pool.disabled, NotApproved);
    var _ :- Require(tickLower < tickUpper, TickInvalidOrder);
    var _ :- CheckTick(tickLower, l.pool.tickSpacing);
    var _ :- CheckTick(tickUpper, l.pool.tickSpacing);
    var (found, j) := FindOrCreate(l, tickLower, tickUpper);
    var added :- if liquidity > 0 then AddLiquidity(found, j, liquidity, max0, max1, baseFlag, l.now) else Ok(found);
    Ok(added.(personals := added.personals + [PersonalPosition(j, liquidity, added.protocols[j].growthInside, ZERO_FIVE)]))
  }

  /** `check_tick_array_start_index` for the tick; the start index follows from it. */
  function CheckTick(tick: int, tickSpacing: nat): Result<()> {
    var _ :- Require(MIN_TICK <= tick <= MAX_TICK, TickOverflow);
    Require(tickSpacing > 0 && tick % tickSpacing == 0, RequireViolated)
  }

  /** Index of the protocol position of a range among the first `n`, or `n`. */
  function RangeIndex(protocols: seq<ProtocolPosition>, tickLower: int, tickUpper: int, n: nat): (j: nat)
    requires n <= |protocols|
    ensures j <= n
    ensures j < n ==> protocols[j].tickLower == tickLower && protocols[j].tickUpper == tickUpper
  {
    if n == 0 then 0
    else
      var j := RangeIndex(protocols, tickLower, tickUpper, n - 1);
      if j < n - 1 then j
      else if protocols[n - 1].tickLower == tickLower && protocols[n - 1].tickUpper == tickUpper then n - 1
      else n
  }

  /** The state with a new, empty range whose slots carry their index. */
  function Created(l: Ledger, tickLower: int, tickUpper: int): Ledger {
    l.(protocols := l.protocols + [ProtocolPosition(tickLower, tickUpper, 0, ZERO_FIVE, [0, 0])],
       ticks := l.ticks[tickLower := TickOf(l.ticks, tickLower).(tick := tickLower)]
                       [tickUpper := TickOf(l.ticks, tickUpper).(tick := tickUpper)])
  }

  function FindOrCreate(l: Ledger, tickLower: int, tickUpper: int): (r: (Ledger, nat))
    ensures r.1 < |r.0.protocols|
  {
    var j := RangeIndex(l.protocols, tickLower, tickUpper, |l.protocols|);
    (if j < |l.protocols| then l else Created(l, tickLower, tickUpper), j)
  }

  /** `collect_protocol_fee` */
  function CollectProtocolFee(l: Ledger, requested0: nat, requested1: nat): Result<Ledger> {
    var amount0, amount1 := Min(requested0, l.pool.protocolFees[0]), Min(requested1, l.pool.protocolFees[1]);
    var sent :- PayOut(l.(pool := l.pool.(protocolFees := [l.pool.protocolFees[0] - amount0, l.pool.protocolFees[1] - amount1])),
                       amount0, amount1);
    CheckUnclaimedFees(sent)
  }

  /** `collect_fund_fee` */
  function CollectFundFee(l: Ledger, requested0: nat, requested1: nat): Result<Ledger> {
    var amount0, amount1 := Min(requested0, l.pool.fundFees[0]), Min(requested1, l.pool.fundFees[1]);
    var sent :- PayOut(l.(pool := l.pool.(fundFees := [l.pool.fundFees[0] - amount0, l.pool.fundFees[1] - amount1])),
                       amount0, amount1);
    CheckUnclaimedFees(sent)
  }
}
