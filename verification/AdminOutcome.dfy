/** What the instructions of the pool's keepers leave behind, figure by figure: withdrawing fees, setting rewards up and
    changing them, and the rates. */
module AdminOutcome {
  import opened Wrappers
  import opened FullMath
  import opened PoolTypes
  import opened TickGrowth
  import opened Ledger
  import opened Invariants
  import opened PositionSafety
  import opened DecreaseSafety
  import opened RewardAdmin
  import opened RewardOutcome
  import opened SwapPath
  import opened Machine

  // -----------------------------------------------------------------------------------------
  // Protocol and fund fees

  /** The smaller of what is requested and what was set aside leaves the vault and the figure; and collecting fees is
      switched off if the unclaimed ones then reach a vault. */
  ghost predicate FeesWithdrawn(l: Ledger, l': Ledger, requested: Two, before: Two, after: Two) {
    && (forall k :: 0 <= k < 2 ==>
          var amount := if requested[k] <= before[k] then requested[k] else before[k];
          after[k] + amount == before[k] && l'.vaults[k] + amount == l.vaults[k])
    && l'.pool.disabled == if FeesReachVault(l') then l.pool.disabled + {CollectFeeOp} else l.pool.disabled
  }

  ghost predicate ProtocolFeeTaken(l: Ledger, l': Ledger, requested0: nat, requested1: nat) {
    && FeesWithdrawn(l, l', [requested0, requested1], l.pool.protocolFees, l'.pool.protocolFees)
    && l' == l.(pool := l.pool.(protocolFees := l'.pool.protocolFees, disabled := l'.pool.disabled), vaults := l'.vaults)
  }

  ghost predicate FundFeeTaken(l: Ledger, l': Ledger, requested0: nat, requested1: nat) {
    && FeesWithdrawn(l, l', [requested0, requested1], l.pool.fundFees, l'.pool.fundFees)
    && l' == l.(pool := l.pool.(fundFees := l'.pool.fundFees, disabled := l'.pool.disabled), vaults := l'.vaults)
  }

  /** Both always succeed, and that is all they do. */
  lemma CollectProtocolFeeDoes(l: Ledger, requested0: nat, requested1: nat)
    requires Inv(l)
    ensures var r := CollectProtocolFee(l, requested0, requested1); r.Ok? && ProtocolFeeTaken(l, r.value, requested0, requested1)
  {
    hide Inv, CheckUnclaimedFees, FeesReachVault;
    CollectProtocolFeeSucceeds(l, requested0, requested1);
    var a0, a1 := Min(requested0, l.pool.protocolFees[0]), Min(requested1, l.pool.protocolFees[1]);
    var sent := PayOut(l.(pool := l.pool.(protocolFees := [l.pool.protocolFees[0] - a0, l.pool.protocolFees[1] - a1])), a0, a1).value;
    CheckIs(sent);
    FeesReachFrame(sent, CollectProtocolFee(l, requested0, requested1).value);
  }

  lemma CollectFundFeeDoes(l: Ledger, requested0: nat, requested1: nat)
    requires Inv(l)
    ensures var r := CollectFundFee(l, requested0, requested1); r.Ok? && FundFeeTaken(l, r.value, requested0, requested1)
  {
    hide Inv, CheckUnclaimedFees, FeesReachVault;
    CollectFundFeeSucceeds(l, requested0, requested1);
    var a0, a1 := Min(requested0, l.pool.fundFees[0]), Min(requested1, l.pool.fundFees[1]);
    var sent := PayOut(l.(pool := l.pool.(fundFees := [l.pool.fundFees[0] - a0, l.pool.fundFees[1] - a1])), a0, a1).value;
    CheckIs(sent);
    FeesReachFrame(sent, CollectFundFee(l, requested0, requested1).value);
  }

  // -----------------------------------------------------------------------------------------
  // Funding

  /** A whole period's emission, rounded up, must be a u64. */
  lemma FundingCeilFits(period: nat, emissions: nat)
    ensures FundingCeil(period, emissions).Ok? <==> period * emissions <= 0xFFFF_FFFF_FFFF_FFFF * Q64
    ensures FundingCeil(period, emissions).Ok? ==> IsCeil(FundingCeil(period, emissions).value, period * emissions, Q64)
  {
    MulDivCeilFits(period, emissions, Q64, U256_LIMIT, U128_LIMIT);
    MulDivCeilIs(period, emissions, Q64, U256_LIMIT, U128_LIMIT);
    var r := MulDivCeil256(period, emissions, Q64);
    if r.Ok? { CeilIsLeast(r.value, period * emissions, Q64, U64_LIMIT - 1); }
  }

  /** Part of a period's emission, rounded down, must be one too. */
  lemma FundingFloorFits(period: nat, emissions: nat)
    ensures FundingFloor(period, emissions).Ok? <==> period * emissions / Q64 < U64_LIMIT
    ensures FundingFloor(period, emissions).Ok? ==> FundingFloor(period, emissions).value == period * emissions / Q64
  {
    MulDivFloorFits(period, emissions, Q64, U256_LIMIT, U128_LIMIT);
    MulDivFloorIs(period, emissions, Q64, U256_LIMIT, U128_LIMIT);
    var r := MulDivFloor256(period, emissions, Q64);
    if r.Ok? { FloorIsQuotient(r.value, period * emissions, Q64); }
  }

  /** One reward replaced, `funding` taken in for it, and the rest as in `l` but with the pool `updated`. */
  predicate RewardReplaced(l: Ledger, updated: PoolState, l': Ledger, k: nat, r: RewardInfo, funding: nat)
    requires k < 3
  {
    l' == l.(pool := updated.(rewards := updated.rewards[k := r]), rewardVaults := l.rewardVaults[k := l.rewardVaults[k] + funding])
  }

  // -----------------------------------------------------------------------------------------
  // A new reward

  predicate MayInitialize(l: Ledger, emissions: nat, openTime: nat, endTime: nat) {
    && l.now <= openTime < endTime && 0 < emissions
    && 604800 <= endTime - openTime <= 7776000
    && (endTime - openTime) * emissions <= 0xFFFF_FFFF_FFFF_FFFF * Q64
    && exists k :: 0 <= k < 3 && !l.pool.rewards[k].initialized
  }

  /** The lowest free slot gets the reward, not yet updated, and its vault the whole emission, rounded up. */
  ghost predicate Initializes(l: Ledger, emissions: nat, openTime: nat, endTime: nat, l': Ledger) {
    exists k, funding: nat ::
      && 0 <= k < 3 && !l.pool.rewards[k].initialized && (forall m :: 0 <= m < k ==> l.pool.rewards[m].initialized)
      && IsCeil(funding, (endTime - openTime) * emissions, Q64)
      && RewardReplaced(l, l.pool, l', k, RewardInfo(true, openTime, endTime, openTime, emissions), funding)
  }

  lemma InitializeRewardDoes(l: Ledger, emissions: nat, openTime: nat, endTime: nat)
    ensures var r := InitializeReward(l, emissions, openTime, endTime);
            (r.Ok? <==> MayInitialize(l, emissions, openTime, endTime)) && (r.Ok? ==> Initializes(l, emissions, openTime, endTime, r.value))
  {
    hide FundingCeil, IsCeil;
    var r := InitializeReward(l, emissions, openTime, endTime);
    var free := FreeReward(l.pool.rewards);
    assert free.Some? <==> exists k :: 0 <= k < 3 && !l.pool.rewards[k].initialized by {
      assert free.None? ==> forall k :: 0 <= k < 3 ==> l.pool.rewards[k].initialized;
      assert free.Some? ==> !l.pool.rewards[free.value].initialized;
    }
    if openTime < endTime {
      FundingCeilFits(endTime - openTime, emissions);
      if r.Ok? {
        assert RewardReplaced(l, l.pool, r.value, free.value, RewardInfo(true, openTime, endTime, openTime, emissions),
                              FundingCeil(endTime - openTime, emissions).value);
      }
    }
  }

  // -----------------------------------------------------------------------------------------
  // Changing a reward

  function Excess(x: int, y: int): nat {
    if y < x then x - y else 0
  }

  /** What a running reward's change costs: the higher rate for the time left, and the new rate for the extension, each
      rounded down. */
  function ChangeCost(r: RewardInfo, now: nat, emissions: nat, endTime: nat): int {
    (r.endTime - now) * Excess(emissions, r.emissionsPerSecond) / 0x1_0000_0000_0000_0000
      + Excess(endTime, r.endTime) * emissions / 0x1_0000_0000_0000_0000
  }

  /** A reward that is over starts again at once; an operator may also restart one that has yet to open. */
  predicate StartsOver(r: RewardInfo, now: nat, byAdmin: bool) {
    r.lastUpdateTime == r.endTime || (byAdmin && now < r.openTime)
  }

  /** An owner's new period, or extension, must last from a week to ninety days, and the rate may be lowered in the last
      three days only. */
  predicate MayChange(r: RewardInfo, now: nat, emissions: nat, openTime: nat, endTime: nat, byAdmin: bool) {
    if StartsOver(r, now, byAdmin) then
      && (byAdmin || 604800 <= endTime - openTime <= 7776000)
      && (endTime - openTime) * emissions <= 0xFFFF_FFFF_FFFF_FFFF * Q64
    else
      && now <= r.endTime
      && (byAdmin || (604800 <= endTime - r.endTime <= 7776000 && (emissions < r.emissionsPerSecond ==> r.endTime - now < 259200)))
      && ChangeCost(r, now, emissions, endTime) < U64_LIMIT
  }

  ghost predicate Changes(r: RewardInfo, now: nat, emissions: nat, openTime: nat, endTime: nat, byAdmin: bool, r': RewardInfo,
                          funding: nat) {
    if StartsOver(r, now, byAdmin) then
      && r' == RewardInfo(r.initialized, openTime, endTime, openTime, emissions)
      && IsCeil(funding, (endTime - openTime) * emissions, Q64)
    else
      && r' == r.(endTime := endTime, emissionsPerSecond := emissions)
      && funding == ChangeCost(r, now, emissions, endTime)
  }

  function Change(r: RewardInfo, now: nat, emissions: nat, openTime: nat, endTime: nat, byAdmin: bool): Result<(RewardInfo, nat)> {
    if byAdmin then AdminUpdate(r, now, emissions, openTime, endTime) else NormalUpdate(r, now, emissions, openTime, endTime)
  }

  lemma ChangeDoes(r: RewardInfo, now: nat, emissions: nat, openTime: nat, endTime: nat, byAdmin: bool)
    requires now < openTime < endTime && (byAdmin || r.openTime < now)
    ensures var c := Change(r, now, emissions, openTime, endTime, byAdmin);
            && (c.Ok? <==> MayChange(r, now, emissions, openTime, endTime, byAdmin))
            && (c.Ok? ==> Changes(r, now, emissions, openTime, endTime, byAdmin, c.value.0, c.value.1))
  {
    hide FundingCeil, FundingFloor, IsCeil;
    FundingCeilFits(endTime - openTime, emissions);
    FundingFloorFits(SaturatingSub(endTime, r.endTime), emissions);
    if now <= r.endTime { FundingFloorFits(r.endTime - now, SaturatingSub(emissions, r.emissionsPerSecond)); }
  }

  /** `set_reward_params`: reward `k`, brought up to date first, changes, and its vault takes in the cost. */
  ghost predicate SetsReward(l: Ledger, k: nat, emissions: nat, openTime: nat, endTime: nat, byAdmin: bool, updated: PoolState,
                             l': Ledger) {
    && RewardsUpdated(l.pool, updated, l.now)
    && k < 3 && exists r', funding: nat ::
         Changes(updated.rewards[k], l.now, emissions, openTime, endTime, byAdmin, r', funding) &&
         RewardReplaced(l, updated, l', k, r', funding)
  }

  predicate MaySet(l: Ledger, k: nat, emissions: nat, openTime: nat, endTime: nat, byAdmin: bool, updated: PoolState) {
    && k < 3 && l.now < openTime < endTime && 0 < emissions
    && updated.rewards[k].initialized && (byAdmin || updated.rewards[k].openTime < l.now)
    && MayChange(updated.rewards[k], l.now, emissions, openTime, endTime, byAdmin)
  }

  lemma SetRewardParamsDoes(l: Ledger, k: nat, emissions: nat, openTime: nat, endTime: nat, byAdmin: bool)
    ensures var r, pool := SetRewardParams(l, k, emissions, openTime, endTime, byAdmin), UpdateRewardInfos(l.pool, l.now);
            && (r.Ok? <==> pool.Ok? && MaySet(l, k, emissions, openTime, endTime, byAdmin, pool.value))
            && (r.Ok? ==> SetsReward(l, k, emissions, openTime, endTime, byAdmin, pool.value, r.value))
  {
    hide UpdateRewardInfos, AdminUpdate, NormalUpdate, RewardsUpdated, MayChange, Changes;
    var pool := UpdateRewardInfos(l.pool, l.now);
    if pool.Ok? {
      InfosUpdate(l.pool, l.now);
      if k < 3 && l.now < openTime < endTime {
        var r := pool.value.rewards[k];
        if byAdmin || r.openTime < l.now { ChangeDoes(r, l.now, emissions, openTime, endTime, byAdmin); }
        var s := SetRewardParams(l, k, emissions, openTime, endTime, byAdmin);
        if s.Ok? {
          var (r', funding) := Change(r, l.now, emissions, openTime, endTime, byAdmin).value;
          assert RewardReplaced(l, pool.value, s.value, k, r', funding);
        }
      }
    }
  }

  // -----------------------------------------------------------------------------------------
  // The surplus of an ended reward

  /** The vault keeps what owners may still claim, and the rest leaves it. */
  ghost predicate SurplusTaken(l: Ledger, k: nat, updated: PoolState, l': Ledger)
    requires k < 3
  {
    && RewardsUpdated(l.pool, updated, l.now)
    && updated.rewards[k].initialized && updated.rewards[k].lastUpdateTime == updated.rewards[k].endTime
    && l'.rewardVaults[k] <= l.rewardVaults[k] && l'.rewardVaults[k] + updated.claimed[2 + k] == updated.total[2 + k]
    && l' == l.(pool := updated, rewardVaults := l.rewardVaults[k := l'.rewardVaults[k]])
  }

  /** `collect_remaining_rewards` succeeds for a reward that has ended, if its vault holds what may still be claimed. */
  lemma CollectRemainingDoes(l: Ledger, k: nat)
    ensures var r, pool := CollectRemaining(l, k), UpdateRewardInfos(l.pool, l.now);
            && (r.Ok? <==> k < 3 && pool.Ok? && pool.value.rewards[k].initialized
                           && pool.value.rewards[k].lastUpdateTime == pool.value.rewards[k].endTime
                           && 0 <= pool.value.total[2 + k] as int - pool.value.claimed[2 + k] <= l.rewardVaults[k])
            && (r.Ok? ==> SurplusTaken(l, k, pool.value, r.value))
  {
    hide UpdateRewardInfos, RewardsUpdated;
    if UpdateRewardInfos(l.pool, l.now).Ok? { InfosUpdate(l.pool, l.now); }
  }

  // -----------------------------------------------------------------------------------------
  // Rates and new pools

  /** The trade fee must stay below the whole, and the two shares of it together within the whole. */
  lemma WithConfigDoes(l: Ledger, config: AmmConfig)
    ensures var r := WithConfig(l, config);
            && (r.Ok? <==> config.tradeFeeRate < 1000000 && config.protocolFeeRate + config.fundFeeRate <= 1000000)
            && (r.Ok? ==> r.value == l.(config := config))
  {}

  /** A new pool stands at its price, in the tick that ends at or below it, and holds nothing. */
  ghost predicate Creates(l: Ledger, table: PriceTable, config: AmmConfig, tickSpacing: nat, sqrtPrice: nat, openTime: nat,
                          now: nat)
    requires ValidTable(table)
  {
    && l.table == table && l.config == config && l.now == now
    && l.pool.tickSpacing == tickSpacing && l.pool.sqrtPrice == sqrtPrice && l.pool.openTime == openTime
    && -443636 <= l.pool.tickCurrent <= 443636 && Price(table, l.pool.tickCurrent) <= sqrtPrice
    && (l.pool.tickCurrent < 443636 ==> sqrtPrice < Price(table, l.pool.tickCurrent + 1))
    && l.pool.liquidity == 0 && l.pool.disabled == {}
    && l.pool.growthGlobal == l.pool.total == l.pool.claimed == [0, 0, 0, 0, 0] && l.pool.protocolFees == l.pool.fundFees == [0, 0]
    && (forall k :: 0 <= k < 3 ==> !l.pool.rewards[k].initialized)
    && l.ticks == map[] && l.protocols == [] && l.personals == [] && l.vaults == [0, 0] && l.rewardVaults == [0, 0, 0]
  }

  lemma CreatePoolDoes(table: PriceTable, config: AmmConfig, tickSpacing: nat, sqrtPrice: nat, openTime: nat, now: nat)
    requires ValidTable(table)
    ensures var r := CreatePool(table, config, tickSpacing, sqrtPrice, openTime, now);
            && (r.Ok? <==> 4295048016 <= sqrtPrice < 79226673521066979257578248091)
            && (r.Ok? ==> Creates(r.value, table, config, tickSpacing, sqrtPrice, openTime, now))
  {
    hide TickAtSqrtPrice;
    TickAtSqrtPriceIs(table, sqrtPrice);
  }
}
