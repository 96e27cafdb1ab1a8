/** The pool as a state machine: every instruction, any interleaving of them, and what holds in every
    state a run can reach. An instruction that errs or panics commits nothing. */
module Machine {
  import opened Wrappers
  import opened FullMath
  import opened PoolTypes
  import opened TickGrowth
  import opened Ledger
  import opened Sums
  import opened Invariants
  import opened ClaimLemmas
  import opened PositionLemmas
  import opened Vaults
  import opened PositionSafety
  import opened DecreaseSafety
  import opened OpenSafety
  import opened RewardAdmin
  import opened SwapPath
  import opened SwapLedger
  import opened SwapSafety
  import SwapMath

  datatype Instruction =
    | Open(tickLower: int, tickUpper: int, liquidity: nat, max0: nat, max1: nat, baseFlag: Option<bool>)
    | Increase(position: nat, liquidity: nat, max0: nat, max1: nat, baseFlag: Option<bool>)
    | Decrease(position: nat, liquidity: nat, min0: nat, min1: nat)
    | Trade(amount: nat, threshold: nat, limit: nat, zeroForOne: bool, baseInput: bool)
    | TakeProtocolFee(requested0: nat, requested1: nat)
    | TakeFundFee(requested0: nat, requested1: nat)
    | NewReward(emissions: nat, openTime: nat, endTime: nat)
    | ChangeReward(index: nat, emissions: nat, openTime: nat, endTime: nat, byAdmin: bool)
    | UpdateAllRewards
    | TakeRemainingReward(index: nat)
    | SetStatus(disabled: set<Operation>)
    | SetTradeFeeRate(rate: nat)
    | SetProtocolFeeRate(rate: nat)
    | SetFundFeeRate(rate: nat)

  /** Everything that holds between instructions, the reward times included. */
  ghost predicate PoolInv(l: Ledger) {
    Inv(l) && TimesInv(l.pool.rewards, l.now)
  }

  /** `update_amm_config` for the three rates, with its assertions. */
  function WithConfig(l: Ledger, config: AmmConfig): Result<Ledger> {
    var _ :- Require(config.tradeFeeRate < SwapMath.FEE_RATE_DENOMINATOR, AssertionFailed);
    var _ :- Require(config.protocolFeeRate + config.fundFeeRate <= SwapMath.FEE_RATE_DENOMINATOR, AssertionFailed);
    Ok(l.(config := config))
  }

  /** The committed state of a successful instruction. A position that does not exist has no account. */
  ghost function Apply(l: Ledger, op: Instruction): Result<Ledger>
    requires PoolInv(l)
  {
    match op
    case Open(tickLower, tickUpper, liquidity, max0, max1, baseFlag) =>
      OpenPosition(l, tickLower, tickUpper, liquidity, max0, max1, baseFlag)
    case Increase(i, liquidity, max0, max1, baseFlag) =>
      if i < |l.personals| then IncreaseLiquidity(l, i, liquidity, max0, max1, baseFlag) else Err(AssertionFailed)
    case Decrease(i, liquidity, min0, min1) =>
      if i < |l.personals| then DecreaseLiquidity(l, i, liquidity, min0, min1) else Err(AssertionFailed)
    case Trade(amount, threshold, limit, zeroForOne, baseInput) => Swap(l, amount, threshold, limit, zeroForOne, baseInput)
    case TakeProtocolFee(requested0, requested1) => CollectProtocolFee(l, requested0, requested1)
    case TakeFundFee(requested0, requested1) => CollectFundFee(l, requested0, requested1)
    case NewReward(emissions, openTime, endTime) => InitializeReward(l, emissions, openTime, endTime)
    case ChangeReward(k, emissions, openTime, endTime, byAdmin) => SetRewardParams(l, k, emissions, openTime, endTime, byAdmin)
    case UpdateAllRewards => UpdateRewards(l)
    case TakeRemainingReward(k) => CollectRemaining(l, k)
    case SetStatus(disabled) => Ok(l.(pool := l.pool.(disabled := disabled)))
    case SetTradeFeeRate(rate) => WithConfig(l, l.config.(tradeFeeRate := rate))
    case SetProtocolFeeRate(rate) => WithConfig(l, l.config.(protocolFeeRate := rate))
    case SetFundFeeRate(rate) => WithConfig(l, l.config.(fundFeeRate := rate))
  }

  /** Some time passes, and then an instruction is executed. */
  datatype Event = Event(elapsed: nat, op: Instruction)

  function After(l: Ledger, elapsed: nat): Ledger {
    l.(now := l.now + elapsed)
  }

  lemma WaitingKeepsInv(l: Ledger, elapsed: nat)
    requires PoolInv(l)
    ensures PoolInv(After(l, elapsed))
  {
    hide AccrualInv, ClaimsCovered, HoldingsInv, VaultSolvent;
    ClaimsFrame(l, After(l, elapsed));
    VaultsFrame(l, After(l, elapsed));
    TimePasses(l.pool.rewards, l.now, l.now + elapsed);
  }

  ghost function Next(l: Ledger, e: Event): Ledger
    requires PoolInv(l)
  {
    WaitingKeepsInv(l, e.elapsed);
    var waited := After(l, e.elapsed);
    var r := Apply(waited, e.op);
    if r.Ok? then r.value else waited
  }

  // -----------------------------------------------------------------------------------------
  // Every instruction keeps the invariant

  lemma MintedRewards(l: Ledger, j: nat, liquidity: nat, max0: nat, max1: nat, baseFlag: Option<bool>, l': Ledger)
    requires j < |l.protocols| && AddLiquidity(l, j, liquidity, max0, max1, baseFlag, l.now) == Ok(l')
    requires TimesInv(l.pool.rewards, l.now)
    ensures TimesInv(l'.pool.rewards, l'.now)
  {
    hide AddLiquidity, ModifyPosition, UpdateRewardInfos, TimesInv;
    var amount, m := AddUnfolds(l, j, liquidity, max0, max1, baseFlag, l.now, l');
    var p := l.protocols[j];
    var updated, a, flippedA, b, flippedB :=
      ModifyUnfolds(l.table, l.pool, p, NamedTick(l.ticks, p.tickLower), NamedTick(l.ticks, p.tickUpper), amount, l.now, m);
    UpdateInfosKeepTimes(l.pool, l.now, l.now);
  }

  lemma OpenKeepsTimes(l: Ledger, tickLower: int, tickUpper: int, liquidity: nat, max0: nat, max1: nat, baseFlag: Option<bool>, l': Ledger)
    requires OpenPosition(l, tickLower, tickUpper, liquidity, max0, max1, baseFlag) == Ok(l') && TimesInv(l.pool.rewards, l.now)
    ensures TimesInv(l'.pool.rewards, l'.now)
  {
    hide AddLiquidity, TimesInv, RangeIndex;
    var found, j, added := OpenParts(l, tickLower, tickUpper, liquidity, max0, max1, baseFlag, l');
    if liquidity > 0 { MintedRewards(found, j, liquidity, max0, max1, baseFlag, added); }
  }

  lemma IncreaseKeepsTimes(l: Ledger, i: nat, liquidity: nat, max0: nat, max1: nat, baseFlag: Option<bool>, l': Ledger)
    requires i < |l.personals| && l.personals[i].protocol < |l.protocols|
    requires IncreaseLiquidity(l, i, liquidity, max0, max1, baseFlag) == Ok(l') && TimesInv(l.pool.rewards, l.now)
    ensures TimesInv(l'.pool.rewards, l'.now)
  {
    hide AddLiquidity, TimesInv, IncreaseLiquidity, Credit;
    var added, p := IncreaseParts(l, i, liquidity, max0, max1, baseFlag, l');
    MintedRewards(l, l.personals[i].protocol, liquidity, max0, max1, baseFlag, added);
  }

  /** Nothing but the burn itself touches the reward times. */
  predicate SameTimes(l: Ledger, l': Ledger) {
    l'.pool.rewards == l.pool.rewards && l'.now == l.now
  }

  lemma CollectingKeepsTimes(l: Ledger, i: nat)
    requires i < |l.personals|
    ensures CollectFees(l, i).Ok? ==> SameTimes(l, CollectFees(l, i).value.0) && |CollectFees(l, i).value.0.personals| == |l.personals|
    ensures forall k :: 0 <= k < REWARD_NUM && CollectReward(l, i, k).Ok? ==>
              SameTimes(l, CollectReward(l, i, k).value) && |CollectReward(l, i, k).value.personals| == |l.personals|
  {}

  lemma {:induction false} RewardsKeepTimes(l: Ledger, i: nat, k: nat)
    requires i < |l.personals| && k <= REWARD_NUM
    ensures CollectRewardsFrom(l, i, k).Ok? ==> SameTimes(l, CollectRewardsFrom(l, i, k).value)
    decreases REWARD_NUM - k
  {
    hide CollectReward;
    if k < REWARD_NUM && l.pool.rewards[k].initialized && CollectReward(l, i, k).Ok? {
      CollectingKeepsTimes(l, i);
      RewardsKeepTimes(CollectReward(l, i, k).value, i, k + 1);
    }
  }

  lemma BurnKeepsTimes(l: Ledger, i: nat, liquidity: nat, l': Ledger, amount0: nat, amount1: nat)
    requires i < |l.personals| && l.personals[i].protocol < |l.protocols|
    requires BurnAndCredit(l, i, liquidity) == Ok((l', amount0, amount1)) && TimesInv(l.pool.rewards, l.now)
    ensures TimesInv(l'.pool.rewards, l'.now) && |l'.personals| == |l.personals|
  {
    hide ModifyPosition, UpdateRewardInfos, TimesInv, Credit;
    if DecreaseOp !in l.pool.disabled {
      var j := l.personals[i].protocol;
      var burnt := BurnLiquidity(l, j, liquidity).value.0;
      var m := BurnParts(l, j, liquidity, burnt, amount0, amount1);
      var p := l.protocols[j];
      var updated, a, flippedA, b, flippedB :=
        ModifyUnfolds(l.table, l.pool, p, TickOf(l.ticks, p.tickLower), TickOf(l.ticks, p.tickUpper), 0 - liquidity, l.now, m);
      UpdateInfosKeepTimes(l.pool, l.now, l.now);
    }
  }

  lemma DecreaseKeepsTimes(l: Ledger, i: nat, liquidity: nat, min0: nat, min1: nat, l': Ledger)
    requires i < |l.personals| && l.personals[i].protocol < |l.protocols|
    requires DecreaseLiquidity(l, i, liquidity, min0, min1) == Ok(l') && TimesInv(l.pool.rewards, l.now)
    ensures TimesInv(l'.pool.rewards, l'.now)
  {
    hide BurnAndCredit, CollectFees, CollectRewardsFrom, TimesInv;
    var (burnt, amount0, amount1) := BurnAndCredit(l, i, liquidity).value;
    BurnKeepsTimes(l, i, liquidity, burnt, amount0, amount1);
    CollectingKeepsTimes(burnt, i);
    var (paid, fee0, fee1) := CollectFees(burnt, i).value;
    var checked := CheckUnclaimedFees(PayOut(paid, amount0 + fee0, amount1 + fee1).value).value;
    RewardsKeepTimes(checked, i, 0);
  }

  lemma SwapKeepsTimes(l: Ledger, amount: nat, threshold: nat, limit: nat, zeroForOne: bool, baseInput: bool, l': Ledger)
    requires PriceInv(l) && ConfigInv(l.config) && TimesInv(l.pool.rewards, l.now)
    requires Swap(l, amount, threshold, limit, zeroForOne, baseInput) == Ok(l')
    ensures TimesInv(l'.pool.rewards, l'.now)
  {
    hide SwapLoop, TimesInv, UpdateRewardInfos;
    UpdateInfosKeepTimes(l.pool, l.now % U32_LIMIT, l.now);
  }

  lemma ConfigKeepsInv(l: Ledger, config: AmmConfig)
    requires Inv(l) && WithConfig(l, config).Ok?
    ensures Inv(WithConfig(l, config).value)
  {
    hide Inv;
    SettingsFrame(l, config, l.pool.disabled, l.rewardVaults);
  }

  lemma StatusKeepsInv(l: Ledger, disabled: set<Operation>)
    requires Inv(l)
    ensures Inv(l.(pool := l.pool.(disabled := disabled)))
  {
    hide ClaimsInv, VaultsInv, TotalsFit, ConfigInv;
    SettingsFrame(l, l.config, disabled, l.rewardVaults);
  }

  lemma RangeOfPosition(l: Ledger, i: nat)
    requires Inv(l) && i < |l.personals|
    ensures l.personals[i].protocol < |l.protocols|
  {}

  lemma PositionOpsKeepInv(l: Ledger, op: Instruction, l': Ledger)
    requires PoolInv(l) && Apply(l, op) == Ok(l') && (op.Open? || op.Increase? || op.Decrease?)
    ensures PoolInv(l')
  {
    hide Inv, TimesInv, OpenPosition, IncreaseLiquidity, DecreaseLiquidity;
    match op
    case Open(tickLower, tickUpper, liquidity, max0, max1, baseFlag) =>
      OpenKeepsInv(l, tickLower, tickUpper, liquidity, max0, max1, baseFlag, l');
      OpenKeepsTimes(l, tickLower, tickUpper, liquidity, max0, max1, baseFlag, l');
    case Increase(i, liquidity, max0, max1, baseFlag) =>
      RangeOfPosition(l, i);
      IncreaseKeepsInv(l, i, liquidity, max0, max1, baseFlag, l');
      IncreaseKeepsTimes(l, i, liquidity, max0, max1, baseFlag, l');
    case Decrease(i, liquidity, min0, min1) =>
      RangeOfPosition(l, i);
      DecreaseKeepsInv(l, i, liquidity, min0, min1, l');
      DecreaseKeepsTimes(l, i, liquidity, min0, min1, l');
  }

  lemma RewardOpsKeepInv(l: Ledger, op: Instruction, l': Ledger)
    requires PoolInv(l) && Apply(l, op) == Ok(l')
    requires op.NewReward? || op.ChangeReward? || op.UpdateAllRewards? || op.TakeRemainingReward?
    ensures PoolInv(l')
  {
    hide Inv, TimesInv, InitializeReward, SetRewardParams, UpdateRewardInfos;
    UpdateInfosKeepTimes(l.pool, l.now, l.now);
    match op
    case NewReward(emissions, openTime, endTime) => InitializeRewardKeepsInv(l, emissions, openTime, endTime, l');
    case ChangeReward(k, emissions, openTime, endTime, byAdmin) =>
      SetRewardParamsKeepsInv(l, k, emissions, openTime, endTime, byAdmin, l');
      SetRewardParamsKeepsTimes(l, k, emissions, openTime, endTime, byAdmin);
      SetRewardParamsKeepsClock(l, k, emissions, openTime, endTime, byAdmin, l');
    case UpdateAllRewards => WithRewardsKeepsInv(l, l.now);
    case TakeRemainingReward(k) => CollectRemainingKeepsInv(l, k, l');
  }

  lemma SetRewardParamsKeepsClock(l: Ledger, k: nat, emissions: nat, openTime: nat, endTime: nat, byAdmin: bool, l': Ledger)
    requires SetRewardParams(l, k, emissions, openTime, endTime, byAdmin) == Ok(l')
    ensures l'.now == l.now
  {
    hide UpdateRewardInfos, AdminUpdate, NormalUpdate;
  }

  lemma OtherOpsKeepInv(l: Ledger, op: Instruction, l': Ledger)
    requires PoolInv(l) && Apply(l, op) == Ok(l')
    requires op.TakeProtocolFee? || op.TakeFundFee? || op.SetStatus? || op.SetTradeFeeRate? || op.SetProtocolFeeRate? || op.SetFundFeeRate?
    ensures PoolInv(l')
  {
    hide Inv, TimesInv;
    match op
    case TakeProtocolFee(requested0, requested1) => CollectProtocolFeeSucceeds(l, requested0, requested1);
    case TakeFundFee(requested0, requested1) => CollectFundFeeSucceeds(l, requested0, requested1);
    case SetStatus(disabled) => StatusKeepsInv(l, disabled);
    case SetTradeFeeRate(rate) => ConfigKeepsInv(l, l.config.(tradeFeeRate := rate));
    case SetProtocolFeeRate(rate) => ConfigKeepsInv(l, l.config.(protocolFeeRate := rate));
    case SetFundFeeRate(rate) => ConfigKeepsInv(l, l.config.(fundFeeRate := rate));
  }

  lemma TradeKeepsInv(l: Ledger, op: Instruction, l': Ledger)
    requires PoolInv(l) && Apply(l, op) == Ok(l') && op.Trade?
    ensures PoolInv(l')
  {
    hide TimesInv, Swap, ClaimsInv, VaultsInv, TotalsFit;
    SwapKeepsInv(l, op.amount, op.threshold, op.limit, op.zeroForOne, op.baseInput, l');
    SwapKeepsTimes(l, op.amount, op.threshold, op.limit, op.zeroForOne, op.baseInput, l');
  }

  lemma InstructionKeepsInv(l: Ledger, op: Instruction, l': Ledger)
    requires PoolInv(l) && Apply(l, op) == Ok(l')
    ensures PoolInv(l')
  {
    hide PoolInv, Apply;
    if op.Open? || op.Increase? || op.Decrease? { PositionOpsKeepInv(l, op, l'); }
    else if op.NewReward? || op.ChangeReward? || op.UpdateAllRewards? || op.TakeRemainingReward? { RewardOpsKeepInv(l, op, l'); }
    else if op.Trade? { TradeKeepsInv(l, op, l'); }
    else { OtherOpsKeepInv(l, op, l'); }
  }

  lemma NextKeepsInv(l: Ledger, e: Event)
    requires PoolInv(l)
    ensures PoolInv(Next(l, e))
  {
    hide PoolInv, Apply;
    WaitingKeepsInv(l, e.elapsed);
    var r := Apply(After(l, e.elapsed), e.op);
    if r.Ok? { InstructionKeepsInv(After(l, e.elapsed), e.op, r.value); }
  }

  // -----------------------------------------------------------------------------------------
  // Whole runs

  /** `create_pool`, with empty vaults and nothing switched off. */
  function CreatePool(table: PriceTable, config: AmmConfig, tickSpacing: nat, sqrtPrice: nat, openTime: nat, now: nat): Result<Ledger> {
    var tick :- TickAtSqrtPrice(table, sqrtPrice);
    var none := RewardInfo(false, 0, 0, 0, 0);
    Ok(Ledger(table, config,
              PoolState(tickSpacing, 0, sqrtPrice, tick, ZERO_FIVE, ZERO_FIVE, ZERO_FIVE, [0, 0], [0, 0],
                        [none, none, none], openTime, {}),
              map[], [], [], [0, 0], [0, 0, 0], now))
  }

  /** With no position there is nothing to owe. */
  lemma NoPositionsNoClaims(l: Ledger)
    requires l.ticks == map[] && l.protocols == [] && l.personals == [] && l.pool.liquidity == 0
    requires l.pool.growthGlobal == ZERO_FIVE && l.pool.total == ZERO_FIVE && l.pool.claimed == ZERO_FIVE
    ensures ClaimsInv(l)
  {}

  lemma NoPositionsNoBacking(l: Ledger)
    requires ValidTable(l.table) && ValidRanges(l) && l.protocols == []
    requires l.vaults == [0, 0] && l.pool.total == ZERO_FIVE && l.pool.claimed == ZERO_FIVE
    requires l.pool.protocolFees == [0, 0] && l.pool.fundFees == [0, 0]
    ensures VaultsInv(l)
  {}

  lemma CreatedPoolInv(table: PriceTable, config: AmmConfig, tickSpacing: nat, sqrtPrice: nat, openTime: nat, now: nat)
    requires ValidTable(table) && ConfigInv(config)
    ensures var r := CreatePool(table, config, tickSpacing, sqrtPrice, openTime, now);
            r.Ok? ==> PoolInv(r.value)
  {
    hide LiquidityInv, GrowthInv, NamedSlots, HoldingsInv, AccrualInv, ClaimsCovered, VaultSolvent, ConfigInv, TickAtSqrtPrice;
    TickAtSqrtPriceIs(table, sqrtPrice);
    var r := CreatePool(table, config, tickSpacing, sqrtPrice, openTime, now);
    if r.Ok? {
      NoPositionsNoClaims(r.value);
      NoPositionsNoBacking(r.value);
    }
  }

  /** The state after a sequence of events. */
  ghost function Run(l: Ledger, events: seq<Event>): Ledger
    requires PoolInv(l)
    decreases |events|
  {
    if events == [] then l
    else
      NextKeepsInv(l, events[0]);
      Run(Next(l, events[0]), events[1..])
  }

  lemma {:induction false} RunKeepsInv(l: Ledger, events: seq<Event>)
    requires PoolInv(l)
    ensures PoolInv(Run(l, events))
    decreases |events|
  {
    hide PoolInv, Next;
    if events != [] {
      NextKeepsInv(l, events[0]);
      RunKeepsInv(Next(l, events[0]), events[1..]);
    }
  }

  /** Every state that any run from a new pool reaches. */
  ghost predicate Reachable(l: Ledger) {
    exists table, config, tickSpacing, sqrtPrice, openTime, now, events: seq<Event> ::
      ReachedBy(l, table, config, tickSpacing, sqrtPrice, openTime, now, events)
  }

  ghost predicate ReachedBy(l: Ledger, table: PriceTable, config: AmmConfig, tickSpacing: nat, sqrtPrice: nat, openTime: nat,
                            now: nat, events: seq<Event>)
  {
    ValidTable(table) && ConfigInv(config) &&
    var r := CreatePool(table, config, tickSpacing, sqrtPrice, openTime, now);
    r.Ok? && (CreatedPoolInv(table, config, tickSpacing, sqrtPrice, openTime, now); l == Run(r.value, events))
  }

  lemma ReachableIsSafe(l: Ledger)
    requires Reachable(l)
    ensures PoolInv(l)
  {
    hide PoolInv;
    var table, config, tickSpacing, sqrtPrice, openTime, now, events: seq<Event> :|
      ReachedBy(l, table, config, tickSpacing, sqrtPrice, openTime, now, events);
    CreatedPoolInv(table, config, tickSpacing, sqrtPrice, openTime, now);
    RunKeepsInv(CreatePool(table, config, tickSpacing, sqrtPrice, openTime, now).value, events);
  }
}
