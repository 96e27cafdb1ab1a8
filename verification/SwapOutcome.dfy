/** What a swap amounts to: which ticks it crosses, where every token goes, and what can stop it. */
module SwapOutcome {
  import opened Wrappers
  import opened FullMath
  import opened LiquidityMath
  import opened PoolTypes
  import opened TickGrowth
  import opened Ledger
  import opened Sums
  import opened Invariants
  import opened PositionLemmas
  import opened Vaults
  import opened PositionSafety
  import opened DecreaseSafety
  import opened SwapMath
  import opened SwapValue
  import opened SwapPath
  import opened SwapLedger
  import opened SwapSafety
  import opened RewardAdmin

  // -----------------------------------------------------------------------------------------
  // Ticks are crossed one by one, in order

  /** The initialized ticks still in front of the swap. */
  function TicksAhead(ticks: map<int, TickState>, tick: int, zeroForOne: bool): set<int> {
    set t | t in ticks && MIN_TICK <= t <= MAX_TICK && TickOf(ticks, t).IsInitialized() && Ahead(tick, t, zeroForOne)
  }

  /** A turn after which the swap goes on crossed the nearest initialized tick and no other, and
      left the rest in front of it. */
  lemma TurnCrossesNearestTick(s: Setting, config: AmmConfig, pool: PoolState, st: SwapState, st': SwapState)
    requires ValidSetting(s) && OnPath(s, st.path) && SwapOnce(s, config, pool, st) == Ok(st') && !Done(s, st'.path)
    ensures var next := NextTick(st.ticks, st.path.tick, s.zeroForOne);
            && next.Some?
            && next.value in TicksAhead(st.ticks, st.path.tick, s.zeroForOne)
            && TicksAhead(st'.ticks, st'.path.tick, s.zeroForOne) == TicksAhead(st.ticks, st.path.tick, s.zeroForOne) - {next.value}
            && (forall t :: t != next.value ==> TickOf(st'.ticks, t) == TickOf(st.ticks, t))
            && st'.path.sqrtPrice == Price(s.table, next.value)
  {
    hide StepGuarantee, Take, HopFrom, CrossTick;
    var hop := HopFrom(s, st.ticks, st.path).value;
    HopIsGood(s, st.ticks, st.path);
    HopArrivesOrEnds(s, st.ticks, st.path, hop, st'.path);
    NextTickIs(st.ticks, st.path.tick, s.zeroForOne);
    var crossed := CrossTick(TickOf(st.ticks, hop.next), pool.growthGlobal[InToken(s.zeroForOne) := st'.taken.growth], pool.rewards);
    CrossedOnlyGrowth(TickOf(st.ticks, hop.next), pool.growthGlobal[InToken(s.zeroForOne) := st'.taken.growth], pool.rewards);
    CrossedIsBehind(s, st, st', hop.next);
  }

  lemma CrossedIsBehind(s: Setting, st: SwapState, st': SwapState, next: int)
    requires MIN_TICK <= next <= MAX_TICK && TickOf(st.ticks, next).IsInitialized() && TickOf(st'.ticks, next).IsInitialized()
    requires Ahead(st.path.tick, next, s.zeroForOne) && st'.ticks == st.ticks[next := TickOf(st'.ticks, next)]
    requires forall u :: MIN_TICK <= u <= MAX_TICK && TickOf(st.ticks, u).IsInitialized() && Ahead(st.path.tick, u, s.zeroForOne) ==>
               if s.zeroForOne then u <= next else next <= u
    requires st'.path.tick == if s.zeroForOne then next - 1 else next
    ensures next in TicksAhead(st.ticks, st.path.tick, s.zeroForOne)
    ensures TicksAhead(st'.ticks, st'.path.tick, s.zeroForOne) == TicksAhead(st.ticks, st.path.tick, s.zeroForOne) - {next}
  {}

  /** Number of turns the loop takes. */
  ghost function Turns(s: Setting, config: AmmConfig, pool: PoolState, st: SwapState): nat
    requires ValidSetting(s) && OnPath(s, st.path)
    decreases Distance(s, st.path)
  {
    if Done(s, st.path) then 0
    else
      var turn := SwapOnce(s, config, pool, st);
      if turn.Err? then 1
      else
        SwapOnceProgresses(s, config, pool, st, turn.value);
        1 + Turns(s, config, pool, turn.value)
  }

  /** The loop takes at most one turn more than there are initialized ticks in front of it. */
  lemma {:induction false} TurnsAreBounded(s: Setting, config: AmmConfig, pool: PoolState, st: SwapState)
    requires ValidSetting(s) && OnPath(s, st.path)
    ensures Turns(s, config, pool, st) <= |TicksAhead(st.ticks, st.path.tick, s.zeroForOne)| + 1
    decreases Distance(s, st.path)
  {
    hide SwapOnce, OnPath, ValidSetting, TicksAhead, Done;
    if !Done(s, st.path) && SwapOnce(s, config, pool, st).Ok? {
      var st' := SwapOnce(s, config, pool, st).value;
      SwapOnceProgresses(s, config, pool, st, st');
      if !Done(s, st'.path) {
        TurnCrossesNearestTick(s, config, pool, st, st');
        TurnsAreBounded(s, config, pool, st');
      }
    }
  }

  // -----------------------------------------------------------------------------------------
  // Where the tokens go

  /** Input the remaining steps put on the curve, fees apart. */
  ghost function CurveIn(s: Setting, config: AmmConfig, pool: PoolState, st: SwapState): nat
    requires ValidSetting(s) && OnPath(s, st.path)
    decreases Distance(s, st.path)
  {
    if Done(s, st.path) then 0
    else
      var turn := SwapOnce(s, config, pool, st);
      if turn.Err? then 0
      else
        SwapOnceProgresses(s, config, pool, st, turn.value);
        HopFrom(s, st.ticks, st.path).value.step.amountIn + CurveIn(s, config, pool, turn.value)
  }

  /** What the input paid for so far beyond the curve: all of it is in one of the three fee tallies. */
  function Fees(t: Takings): nat {
    t.lpFee + t.protocolFee + t.fundFee
  }

  lemma TurnConservesInput(s: Setting, config: AmmConfig, l: Ledger, amount: nat, st: SwapState, st': SwapState)
    requires ValidSetting(s) && OnPath(s, st.path) && ConfigInv(config) && SwapOnce(s, config, l.pool, st) == Ok(st')
    ensures HopFrom(s, st.ticks, st.path).Ok?
    ensures var step := HopFrom(s, st.ticks, st.path).value.step;
            && PaidIn(s, amount, st'.path) == PaidIn(s, amount, st.path) + step.amountIn + (Fees(st'.taken) - Fees(st.taken))
            && (Fees(st'.taken) - Fees(st.taken)) * (FEE_RATE_DENOMINATOR - s.feeRate) >= step.amountIn * s.feeRate
  {
    hide HopFrom, Take, StepOf, Advance, CrossTick, OnPath, ConfigInv, CostsExactly, Delivers;
    var hop := HopFrom(s, st.ticks, st.path).value;
    HopIsGood(s, st.ticks, st.path);
    HopMovesTokens(s, st.ticks, amount, st.path, hop, st'.path);
    var forLiquidity := TakeSplits(config, st.taken, st.path.liquidity, hop.step.feeAmount);
    if st.path.liquidity == 0 { HopWithoutLiquidityIsFree(s, st.ticks, st.path); }
  }

  /** Nothing is charged, and so nothing lost, on a segment without liquidity. */
  lemma HopWithoutLiquidityIsFree(s: Setting, ticks: map<int, TickState>, p: Path)
    requires ValidSetting(s) && OnPath(s, p) && p.liquidity == 0 && HopFrom(s, ticks, p).Ok?
    ensures HopFrom(s, ticks, p).value.step.feeAmount == 0
  {
    hide StepOf, NextTick, CostsExactly, Delivers;
    var hop := HopFrom(s, ticks, p).value;
    HopIsGood(s, ticks, p);
    ZeroLiquidityStepIsFree(p.sqrtPrice, hop.target, p.remaining, s.feeRate, s.baseInput, s.zeroForOne);
  }

  /** All input ends up on the curve or in one of the three fee tallies, and the fees are at least the
      trade fee on what the curve took. */
  lemma {:induction false} LoopConservesInput(s: Setting, config: AmmConfig, l: Ledger, amount: nat, st: SwapState, end: SwapState)
    requires ValidSetting(s) && OnPath(s, st.path) && ConfigInv(config) && SwapLoop(s, config, l.pool, st) == Ok(end)
    ensures PaidIn(s, amount, end.path)
         == PaidIn(s, amount, st.path) + CurveIn(s, config, l.pool, st) + (Fees(end.taken) - Fees(st.taken))
    ensures (Fees(end.taken) - Fees(st.taken)) * (FEE_RATE_DENOMINATOR - s.feeRate) >= CurveIn(s, config, l.pool, st) * s.feeRate
    decreases Distance(s, st.path)
  {
    hide SwapOnce, OnPath, ConfigInv, Fees, HopFrom, Distance, PaidIn;
    if !Done(s, st.path) {
      var st' := SwapOnce(s, config, l.pool, st).value;
      SwapOnceProgresses(s, config, l.pool, st, st');
      TurnConservesInput(s, config, l, amount, st, st');
      LoopConservesInput(s, config, l, amount, st', end);
      var step := HopFrom(s, st.ticks, st.path).value.step;
      AddUp(Fees(st'.taken) - Fees(st.taken), Fees(end.taken) - Fees(st'.taken), FEE_RATE_DENOMINATOR - s.feeRate,
            step.amountIn, CurveIn(s, config, l.pool, st'), s.feeRate);
    }
  }

  lemma AddUp(a: int, b: int, d: int, x: int, y: int, r: int)
    requires a * d >= x * r && b * d >= y * r
    ensures (a + b) * d >= (x + y) * r
  {}

  // -----------------------------------------------------------------------------------------
  // What can stop a swap

  /** At the crossed tick the active liquidity changes by exactly that tick's net liquidity. */
  lemma CrossingPasses(s: Setting, l: Ledger, p: Path, hop: Hop)
    requires ValidSetting(s) && OnPath(s, p) && s.table == l.table && GoodHop(s, l.ticks, p, hop)
    requires p.tick == l.pool.tickCurrent
    ensures Passes(l, if s.zeroForOne then hop.next - 1 else hop.next, hop.next, if s.zeroForOne then -1 else 1)
  {
    hide StepGuarantee;
    NextTickIs(l.ticks, p.tick, s.zeroForOne);
  }

  /** So removing or adding it can overflow, but never takes the liquidity below zero. */
  lemma CrossingNeverUnderflows(s: Setting, l: Ledger, p: Path, hop: Hop)
    requires ValidSetting(s) && OnPath(s, p) && s.table == l.table && GoodHop(s, l.ticks, p, hop)
    requires p.tick == l.pool.tickCurrent && p.liquidity == l.pool.liquidity && StructureInv(l)
    ensures var r := CrossedLiquidity(p.liquidity, TickOf(l.ticks, hop.next).liquidityNet, s.zeroForOne);
            r.Err? ==> r.error == Overflow
  {
    hide GoodHop, OnPath, Passes;
    CrossingPasses(s, l, p, hop);
    var to, sign := if s.zeroForOne then hop.next - 1 else hop.next, if s.zeroForOne then -1 else 1;
    TotalAcross(l, to, hop.next, sign);
    TotalNonNegative(l.protocols, Active(to));
    assert TickOf(l.ticks, hop.next).liquidityNet == Total(l.protocols, Net(hop.next));
  }

  /** A path step that cannot be taken overflowed. */
  lemma AdvanceOnlyOverflows(s: Setting, l: Ledger, p: Path, hop: Hop)
    requires ValidSetting(s) && OnPath(s, p) && s.table == l.table && GoodHop(s, l.ticks, p, hop)
    requires p.tick == l.pool.tickCurrent && p.liquidity == l.pool.liquidity && StructureInv(l)
    ensures Advance(s, l.ticks, p, hop).Err? ==> Advance(s, l.ticks, p, hop).error == Overflow
  {
    hide StructureInv, CrossedLiquidity, CostsExactly, Delivers, NextTick, TickAtSqrtPrice;
    CrossingNeverUnderflows(s, l, p, hop);
    HopEndsBetween(s, l.ticks, p, hop);
    TickAtSqrtPriceIs(s.table, hop.step.sqrtPriceNext);
    PriceIsMonotone(s.table, p.tick, p.tick + 1);
  }

  /** A turn fails only for an overflow, or when no initialized tick is left ahead. */
  lemma TurnFailsOnlyBy(s: Setting, l: Ledger, amount: nat, st: SwapState)
    requires ValidSetting(s) && OnPath(s, st.path) && ConfigInv(l.config) && s.table == l.table
    requires TradeInv(Midway(s, l, amount, st))
    ensures var r := SwapOnce(s, l.config, l.pool, st);
            r.Err? ==> r.error == Overflow || (r.error == LiquidityInsufficient && NextTick(st.ticks, st.path.tick, s.zeroForOne) == None)
  {
    hide OnPath, ValidSetting, PriceInv, VaultsInv, HoldingsInv, AccrualInv, ClaimsCovered, LiquidityInv, NamedSlots,
      Advance, Take, Split, CrossTick, StepGuarantee, NextTick, HopFrom;
    HopIsGood(s, st.ticks, st.path);
    var r := HopFrom(s, st.ticks, st.path);
    if r.Ok? {
      AdvanceOnlyOverflows(s, Midway(s, l, amount, st), st.path, r.value);
      var forLiquidity := TakeSplits(l.config, st.taken, st.path.liquidity, r.value.step.feeAmount);
      var path := Advance(s, st.ticks, st.path, r.value);
      var taken := Take(l.config, st.taken, st.path.liquidity, r.value.step.feeAmount);
      if path.Ok? && taken.Ok? {
        GrownCrossesCleanly(s, l, amount, st, taken.value, r.value.next);
      }
    }
  }

  lemma GrownCrossesCleanly(s: Setting, l: Ledger, amount: nat, st: SwapState, taken: Takings, next: int)
    requires GrowthInv(Midway(s, l, amount, st)) && st.taken.growth <= taken.growth
    requires taken.growth < U128_LIMIT || taken.growth == st.taken.growth
    ensures CrossTick(TickOf(st.ticks, next), l.pool.growthGlobal[InToken(s.zeroForOne) := taken.growth], l.pool.rewards).Ok?
  {
    var c, before := InToken(s.zeroForOne), Midway(s, l, amount, st);
    var grown := before.(pool := before.pool.(growthGlobal := l.pool.growthGlobal[c := taken.growth]));
    assert GrowthInv(grown) by {
      forall d | 0 <= d < 5 ensures before.pool.growthGlobal[d] <= grown.pool.growthGlobal[d] < U128_LIMIT {}
    }
    CrossMirrors(grown, next);
  }

  lemma {:induction false} LoopFailsOnlyBy(s: Setting, l: Ledger, amount: nat, st: SwapState)
    requires ValidSetting(s) && s.table == l.table && s.feeRate == l.config.tradeFeeRate && ConfigInv(l.config)
    requires OnPath(s, st.path) && TradeInv(Midway(s, l, amount, st))
    ensures var r := SwapLoop(s, l.config, l.pool, st);
            r.Err? ==> r.error == Overflow || r.error == LiquidityInsufficient
    decreases Distance(s, st.path)
  {
    hide OnPath, ValidSetting, TradeInv, SwapOnce, Midway, Distance, Turn, NextTick;
    if !Done(s, st.path) {
      TurnFailsOnlyBy(s, l, amount, st);
      var turn := SwapOnce(s, l.config, l.pool, st);
      if turn.Ok? {
        SwapOnceProgresses(s, l.config, l.pool, st, turn.value);
        var hop, forLiquidity := SwapOnceTurns(s, l.config, l, st, turn.value);
        TurnKeepsTrade(s, l, amount, st, hop, turn.value, forLiquidity);
        LoopFailsOnlyBy(s, l, amount, turn.value);
      }
    }
  }

  /** The vault that pays can pay. */
  lemma VaultsCanPay(l: Ledger)
    requires TradeInv(l)
    ensures l.vaults[0] >= 0 && l.vaults[1] >= 0
  {
    hide StructureInv, HoldingsInv, AccrualInv, LiquidityInv, NamedSlots, GrowthInv;
    assert ValidRanges(l) by { RangesOf(l); }
    BackingNonNegative(l, 0);
    BackingNonNegative(l, 1);
    UnclaimedNonNegative(l, 0);
    UnclaimedNonNegative(l, 1);
  }

  lemma RangesOf(l: Ledger)
    requires StructureInv(l)
    ensures ValidRanges(l)
  {}

  /** What the loop leaves of the amount is no more than the amount. */
  lemma {:induction false} LoopOnlyUsesUp(s: Setting, config: AmmConfig, pool: PoolState, st: SwapState, end: SwapState)
    requires ValidSetting(s) && OnPath(s, st.path) && SwapLoop(s, config, pool, st) == Ok(end)
    ensures end.path.remaining <= st.path.remaining
    ensures if s.zeroForOne then end.path.sqrtPrice <= st.path.sqrtPrice else st.path.sqrtPrice <= end.path.sqrtPrice
    decreases Distance(s, st.path)
  {
    hide OnPath, ValidSetting, Distance, StepGuarantee, NextTick, Take, CrossTick, CrossedLiquidity, TickAtSqrtPrice, HopFrom;
    if !Done(s, st.path) {
      var st' := SwapOnce(s, config, pool, st).value;
      SwapOnceProgresses(s, config, pool, st, st');
      HopIsGood(s, st.ticks, st.path);
      HopArrivesOrEnds(s, st.ticks, st.path, HopFrom(s, st.ticks, st.path).value, st'.path);
      LoopOnlyUsesUp(s, config, pool, st', end);
    }
  }

  /** Reasons for which a caller has to expect a swap to fail: its own arguments, a pool that is not
      open or switched off, too little liquidity, and figures that outgrow their width. */
  predicate CallerError(e: Error) {
    e in {RequireViolated, InvalidSwapAmountSpecified, NotApproved, SqrtPriceLimitOverflow, LiquidityInsufficient,
          TooSmallInputOrOutputAmount, TooLittleOutputReceived, TooMuchInputPaid, Overflow}
  }

  /** Paying out never fails: neither a vault nor a fee nor a liquidity figure is ever short. */
  lemma SettleFailsOnlyBy(s: Setting, l: Ledger, amount: nat, st: SwapState, threshold: nat)
    requires TradeInv(Midway(s, l, amount, st)) && st.path.remaining <= amount
    ensures Settle(s, l, amount, st, threshold).Err? ==> CallerError(Settle(s, l, amount, st, threshold).error)
  {
    hide TradeInv;
    VaultsCanPay(Midway(s, l, amount, st));
  }

  lemma UpdatedSwapFailsOnlyBy(l: Ledger, amount: nat, threshold: nat, limit: nat, zeroForOne: bool, baseInput: bool)
    requires Inv(l) && UpdateRewardInfos(l.pool, l.now % U32_LIMIT).Ok?
    ensures var r := Swap(l, amount, threshold, limit, zeroForOne, baseInput);
            r.Err? ==> CallerError(r.error)
  {
    hide SwapLoop, Settle, ClaimsInv, VaultsInv, TotalsFit, ConfigInv, UpdateRewardInfos, Start;
    var s := Setting(l.table, l.config.tradeFeeRate, LimitOrDefault(limit, zeroForOne), baseInput, zeroForOne);
    var timestamp := l.now % U32_LIMIT;
    WithRewardsKeepsInv(l, timestamp);
    var l1 := WithRewards(l, timestamp);
    if l.now > l.pool.openTime && amount != 0 && SwapOp !in l.pool.disabled && LimitInRange(s.limit, l.pool.sqrtPrice, zeroForOne) {
      StartsOnPath(s, l, l1.pool, amount);
      var st := Start(l1.pool, l.ticks, amount, zeroForOne);
      StartIsUnchanged(s, l1, amount);
      LoopFailsOnlyBy(s, l1, amount, st);
      LoopKeepsTrade(s, l1, amount, st);
      var r := SwapLoop(s, l.config, l1.pool, st);
      if r.Ok? {
        LoopOnlyUsesUp(s, l.config, l1.pool, st, r.value);
        assert st.path.remaining == amount by { StartAmount(l1.pool, l.ticks, amount, zeroForOne); }
        SettleFailsOnlyBy(s, l1, amount, r.value, threshold);
      }
    }
  }

  /** In every state of the invariant a swap fails for such a reason only: no subtraction goes below
      zero, no share exceeds its fee, no crossing lacks liquidity, and the vaults can pay. The one exception
      is a reward that has run past the 32 bits a swap keeps of the clock: then it always fails. */
  lemma SwapFailsOnlyBy(l: Ledger, amount: nat, threshold: nat, limit: nat, zeroForOne: bool, baseInput: bool)
    requires Inv(l)
    ensures var r, behind := Swap(l, amount, threshold, limit, zeroForOne, baseInput), ClockBehind(l.pool, l.now % U32_LIMIT);
            (r.Err? && !behind ==> CallerError(r.error)) && (behind ==> r.Err?)
  {
    hide SwapLoop, Settle, ClaimsInv, VaultsInv, TotalsFit, ConfigInv, UpdateRewardInfos, ClockBehind;
    InfosFailOnlyBy(l.pool, l.now % U32_LIMIT);
    if UpdateRewardInfos(l.pool, l.now % U32_LIMIT).Ok? {
      UpdatedSwapFailsOnlyBy(l, amount, threshold, limit, zeroForOne, baseInput);
    }
  }

  /** Which cannot happen before the clock outgrows 32 bits. */
  lemma ClockFits(l: Ledger)
    requires TimesInv(l.pool.rewards, l.now) && l.now < U32_LIMIT
    ensures !ClockBehind(l.pool, l.now % U32_LIMIT)
  {
    ClockIsNotBehind(l.pool, l.now);
  }

  lemma StartAmount(pool: PoolState, ticks: map<int, TickState>, amount: nat, zeroForOne: bool)
    ensures Start(pool, ticks, amount, zeroForOne).path.remaining == amount
  {}
}
