/** What every instruction does to the pool, and that ranges stay distinct. */
module Outcome {
  import opened Wrappers
  import opened PoolTypes
  import opened Ledger
  import opened Invariants
  import opened ClaimLemmas
  import opened Vaults
  import opened PositionSafety
  import opened RewardAdmin
  import opened SwapPath
  import opened Machine
  import opened RewardOutcome
  import opened AdminOutcome
  import opened PositionOutcome
  import opened DecreaseOutcome
  import opened SwapLedger
  import opened SwapRoute

  /** The effect of a successful instruction, figure by figure. */
  ghost predicate Does(l: Ledger, op: Instruction, l': Ledger) {
    match op
    case Open(tickLower, tickUpper, liquidity, max0, max1, baseFlag) => Opens(l, tickLower, tickUpper, liquidity, max0, max1, baseFlag, l')
    case Increase(i, liquidity, max0, max1, baseFlag) => i < |l.personals| && Increases(l, i, liquidity, max0, max1, baseFlag, l')
    case Decrease(i, liquidity, min0, min1) => i < |l.personals| && Decreases(l, i, liquidity, min0, min1, l')
    case Trade(amount, threshold, limit, zeroForOne, baseInput) => Swaps(l, amount, threshold, limit, zeroForOne, baseInput, l')
    case TakeProtocolFee(requested0, requested1) => ProtocolFeeTaken(l, l', requested0, requested1)
    case TakeFundFee(requested0, requested1) => FundFeeTaken(l, l', requested0, requested1)
    case NewReward(emissions, openTime, endTime) => Initializes(l, emissions, openTime, endTime, l')
    case ChangeReward(k, emissions, openTime, endTime, byAdmin) =>
      exists updated: PoolState :: SetsReward(l, k, emissions, openTime, endTime, byAdmin, updated, l')
    case UpdateAllRewards => RewardsUpdated(l.pool, l'.pool, l.now) && l' == l.(pool := l'.pool)
    case TakeRemainingReward(k) => k < 3 && exists updated: PoolState :: SurplusTaken(l, k, updated, l')
    case SetStatus(disabled) => l' == l.(pool := l.pool.(disabled := disabled))
    case SetTradeFeeRate(rate) => rate < 1000000 && l' == l.(config := l.config.(tradeFeeRate := rate))
    case SetProtocolFeeRate(rate) =>
      rate + l.config.fundFeeRate <= 1000000 && l' == l.(config := l.config.(protocolFeeRate := rate))
    case SetFundFeeRate(rate) =>
      l.config.protocolFeeRate + rate <= 1000000 && l' == l.(config := l.config.(fundFeeRate := rate))
  }

  ghost predicate Opens(l: Ledger, tickLower: int, tickUpper: int, liquidity: nat, max0: nat, max1: nat,
                        baseFlag: Option<bool>, l': Ledger) {
    ValidTable(l.table) && exists found: Ledger, j: nat, amount0: int, amount1: int, updated: PoolState ::
      OpenDoes(l, tickLower, tickUpper, liquidity, max0, max1, baseFlag, l', found, j, amount0, amount1, updated)
  }

  ghost predicate Increases(l: Ledger, i: nat, liquidity: nat, max0: nat, max1: nat, baseFlag: Option<bool>, l': Ledger)
    requires i < |l.personals|
  {
    ValidTable(l.table) && ValidRanges(l) && exists minted: nat, amount0: int, amount1: int, updated: PoolState ::
      IncreaseDoes(l, i, liquidity, max0, max1, baseFlag, l', minted, amount0, amount1, updated)
  }

  ghost predicate Decreases(l: Ledger, i: nat, liquidity: nat, min0: nat, min1: nat, l': Ledger)
    requires i < |l.personals|
  {
    && ValidTable(l.table) && ValidRanges(l) && l.personals[i].protocol < |l.protocols|
    && exists burnt: Ledger, amount0: int, amount1: int, fee0: int, fee1: int, updated: PoolState, claimed: Ledger, checked: Ledger ::
         DecreaseDoes(l, i, liquidity, min0, min1, l', burnt, amount0, amount1, fee0, fee1, updated, claimed, checked)
  }

  ghost predicate Swaps(l: Ledger, amount: nat, threshold: nat, limit: nat, zeroForOne: bool, baseInput: bool, l': Ledger) {
    exists stops: seq<Path>, legs: seq<Leg> :: SwapDoes(l, amount, threshold, limit, zeroForOne, baseInput, l', stops, legs)
  }

  lemma DecreaseDecreases(l: Ledger, i: nat, liquidity: nat, min0: nat, min1: nat, l': Ledger)
    requires Inv(l) && i < |l.personals| && l.personals[i].protocol < |l.protocols|
    requires DecreaseLiquidity(l, i, liquidity, min0, min1) == Ok(l')
    ensures Decreases(l, i, liquidity, min0, min1, l')
  {
    hide Inv, DecreaseLiquidity, DecreaseDoes;
    var burnt, amount0, amount1, fee0, fee1, updated, claimed, checked := DecreaseIs(l, i, liquidity, min0, min1, l');
  }

  lemma SwapSwaps(l: Ledger, amount: nat, threshold: nat, limit: nat, zeroForOne: bool, baseInput: bool, l': Ledger)
    requires PriceInv(l) && ConfigInv(l.config) && Swap(l, amount, threshold, limit, zeroForOne, baseInput) == Ok(l')
    ensures Swaps(l, amount, threshold, limit, zeroForOne, baseInput, l')
  {
    hide Swap, SwapDoes, PriceInv, ConfigInv;
    var stops, legs := SwapIsRoute(l, amount, threshold, limit, zeroForOne, baseInput, l');
  }

  lemma PositionOpDoes(l: Ledger, op: Instruction, l': Ledger)
    requires PoolInv(l) && Apply(l, op) == Ok(l') && (op.Open? || op.Increase? || op.Decrease?)
    ensures Does(l, op, l')
  {
    hide Inv, TimesInv, OpenPosition, IncreaseLiquidity, DecreaseLiquidity, OpenDoes, IncreaseDoes, DecreaseDoes;
    match op
    case Open(tickLower, tickUpper, liquidity, max0, max1, baseFlag) =>
      var found, j, amount0, amount1, updated := OpenIs(l, tickLower, tickUpper, liquidity, max0, max1, baseFlag, l');
    case Increase(i, liquidity, max0, max1, baseFlag) =>
      var minted, amount0, amount1, updated := IncreaseIs(l, i, liquidity, max0, max1, baseFlag, l');
    case Decrease(i, liquidity, min0, min1) =>
      RangeOfPosition(l, i);
      DecreaseDecreases(l, i, liquidity, min0, min1, l');
  }

  lemma TradeDoes(l: Ledger, op: Instruction, l': Ledger)
    requires PoolInv(l) && Apply(l, op) == Ok(l') && op.Trade?
    ensures Does(l, op, l')
  {
    hide ClaimsInv, VaultsInv, TotalsFit, TimesInv, Swap, Swaps;
    SwapSwaps(l, op.amount, op.threshold, op.limit, op.zeroForOne, op.baseInput, l');
  }

  lemma KeeperOpDoes(l: Ledger, op: Instruction, l': Ledger)
    requires PoolInv(l) && Apply(l, op) == Ok(l') && !(op.Open? || op.Increase? || op.Decrease? || op.Trade?)
    ensures Does(l, op, l')
  {
    hide Inv, TimesInv, InitializeReward, SetRewardParams, UpdateRewardInfos, CollectRemaining, CollectProtocolFee, CollectFundFee,
      RewardsUpdated, SetsReward, SurplusTaken, Initializes, ProtocolFeeTaken, FundFeeTaken, WithConfig, MaySet, MayInitialize;
    match op
    case TakeProtocolFee(requested0, requested1) => CollectProtocolFeeDoes(l, requested0, requested1);
    case TakeFundFee(requested0, requested1) => CollectFundFeeDoes(l, requested0, requested1);
    case NewReward(emissions, openTime, endTime) => InitializeRewardDoes(l, emissions, openTime, endTime);
    case ChangeReward(k, emissions, openTime, endTime, byAdmin) => SetRewardParamsDoes(l, k, emissions, openTime, endTime, byAdmin);
    case UpdateAllRewards => InfosUpdate(l.pool, l.now);
    case TakeRemainingReward(k) => CollectRemainingDoes(l, k);
    case SetStatus(disabled) =>
    case SetTradeFeeRate(rate) => WithConfigDoes(l, l.config.(tradeFeeRate := rate));
    case SetProtocolFeeRate(rate) => WithConfigDoes(l, l.config.(protocolFeeRate := rate));
    case SetFundFeeRate(rate) => WithConfigDoes(l, l.config.(fundFeeRate := rate));
  }

  /** Every instruction that goes through does exactly this. */
  lemma InstructionDoes(l: Ledger, op: Instruction, l': Ledger)
    requires PoolInv(l) && Apply(l, op) == Ok(l')
    ensures Does(l, op, l')
  {
    hide PoolInv, Apply, Does;
    if op.Open? || op.Increase? || op.Decrease? { PositionOpDoes(l, op, l'); }
    else if op.Trade? { TradeDoes(l, op, l'); }
    else { KeeperOpDoes(l, op, l'); }
  }

  // -----------------------------------------------------------------------------------------
  // One account per range

  /** No two accounts are of one range. */
  predicate RangesDiffer(l: Ledger) {
    forall a, b :: 0 <= a < b < |l.protocols| ==>
      l.protocols[a].tickLower != l.protocols[b].tickLower || l.protocols[a].tickUpper != l.protocols[b].tickUpper
  }

  lemma SameEndsDiffer(l: Ledger, l': Ledger)
    requires SameEnds(l, l') && RangesDiffer(l)
    ensures RangesDiffer(l')
  {}

  lemma OpeningKeepsRanges(l: Ledger, tickLower: int, tickUpper: int, liquidity: nat, max0: nat, max1: nat,
                           baseFlag: Option<bool>, l': Ledger)
    requires Opens(l, tickLower, tickUpper, liquidity, max0, max1, baseFlag, l') && RangesDiffer(l)
    ensures RangesDiffer(l')
  {
    hide ValidTable, MintCosts, RangeGrowth, RangeChanged;
    var found, j: nat, amount0: int, amount1: int, updated :|
      OpenDoes(l, tickLower, tickUpper, liquidity, max0, max1, baseFlag, l', found, j, amount0, amount1, updated);
    assert RangesDiffer(found);
    if liquidity > 0 { ChangeKeepsEnds(found, l', j, liquidity, updated); }
    SameEndsDiffer(found, l');
  }

  lemma IncreaseKeepsRanges(l: Ledger, i: nat, liquidity: nat, max0: nat, max1: nat, baseFlag: Option<bool>, l': Ledger)
    requires i < |l.personals| && Increases(l, i, liquidity, max0, max1, baseFlag, l')
    ensures SameEnds(l, l')
  {
    hide ValidTable, MintCosts, CreditedAt, RangeChanged;
    var minted: nat, amount0: int, amount1: int, updated :|
      IncreaseDoes(l, i, liquidity, max0, max1, baseFlag, l', minted, amount0, amount1, updated);
    ChangeKeepsEnds(l, l', l.personals[i].protocol, minted, updated);
  }

  lemma DecreaseKeepsRanges(l: Ledger, i: nat, liquidity: nat, min0: nat, min1: nat, l': Ledger)
    requires i < |l.personals| && Decreases(l, i, liquidity, min0, min1, l')
    ensures SameEnds(l, l')
  {
    hide ValidTable, AmountsAt, CreditedAt, RangeChanged, RewardPaid;
    var burnt, amount0: int, amount1: int, fee0: int, fee1: int, updated, claimed, checked :|
      DecreaseDoes(l, i, liquidity, min0, min1, l', burnt, amount0, amount1, fee0, fee1, updated, claimed, checked);
    if DecreaseOp !in l.pool.disabled { ChangeKeepsEnds(l, burnt, l.personals[i].protocol, 0 - liquidity, updated); }
    assert l'.protocols == burnt.protocols;
  }

  lemma OthersKeepRanges(l: Ledger, op: Instruction, l': Ledger)
    requires Does(l, op, l') && !(op.Open? || op.Increase? || op.Decrease?)
    ensures l'.protocols == l.protocols
  {
    hide RewardsUpdated, RouteOf, TokensMoved, Arrived, FeesTaken, Changes, FeesWithdrawn, MaySwap;
  }

  /** So a range is found under the one address it has. */
  lemma RangesStayDistinct(l: Ledger, op: Instruction, l': Ledger)
    requires PoolInv(l) && Apply(l, op) == Ok(l') && RangesDiffer(l)
    ensures RangesDiffer(l')
  {
    hide PoolInv, Apply, RangesDiffer;
    InstructionDoes(l, op, l');
    assert RangesDiffer(l') by {
      hide Opens, Increases, Decreases;
      match op
      case Open(tickLower, tickUpper, liquidity, max0, max1, baseFlag) =>
        OpeningKeepsRanges(l, tickLower, tickUpper, liquidity, max0, max1, baseFlag, l');
      case Increase(i, liquidity, max0, max1, baseFlag) =>
        IncreaseKeepsRanges(l, i, liquidity, max0, max1, baseFlag, l');
        SameEndsDiffer(l, l');
      case Decrease(i, liquidity, min0, min1) =>
        DecreaseKeepsRanges(l, i, liquidity, min0, min1, l');
        SameEndsDiffer(l, l');
      case _ =>
        OthersKeepRanges(l, op, l');
        SameEndsDiffer(l, l');
    }
  }

  lemma {:induction false} RunKeepsRanges(l: Ledger, events: seq<Event>)
    requires PoolInv(l) && RangesDiffer(l)
    ensures RangesDiffer(Run(l, events))
    decreases |events|
  {
    hide PoolInv, Apply, RangesDiffer;
    if events != [] {
      var e := events[0];
      WaitingKeepsInv(l, e.elapsed);
      var waited := After(l, e.elapsed);
      SameEndsDiffer(l, waited);
      var r := Apply(waited, e.op);
      if r.Ok? { RangesStayDistinct(waited, e.op, r.value); }
      NextKeepsInv(l, e);
      RunKeepsRanges(Next(l, e), events[1..]);
    }
  }

  lemma ReachableRangesDiffer(l: Ledger)
    requires Reachable(l)
    ensures RangesDiffer(l)
  {
    hide PoolInv, RangesDiffer;
    var table, config, tickSpacing, sqrtPrice, openTime, now, events: seq<Event> :|
      ReachedBy(l, table, config, tickSpacing, sqrtPrice, openTime, now, events);
    CreatedPoolInv(table, config, tickSpacing, sqrtPrice, openTime, now);
    var created := CreatePool(table, config, tickSpacing, sqrtPrice, openTime, now).value;
    assert RangesDiffer(created) by { NoRangesDiffer(created); }
    RunKeepsRanges(created, events);
  }

  lemma NoRangesDiffer(l: Ledger)
    requires |l.protocols| == 0
    ensures RangesDiffer(l)
  {}
}
