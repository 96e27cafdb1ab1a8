/** What a swap does, said without its loop: a route of steps from one initialized tick to the next, and the state
    that the route's amounts and fees add up to. */
module SwapRoute {
  import opened Wrappers
  import opened FullMath
  import opened LiquidityMath
  import opened PoolTypes
  import opened TickGrowth
  import opened Ledger
  import opened Invariants
  import opened PositionLemmas
  import opened PositionSafety
  import opened SwapMath
  import opened SwapPath
  import opened SwapLedger
  import opened SwapSafety
  import opened SwapOutcome
  import opened RewardOutcome

  // -----------------------------------------------------------------------------------------
  // One step

  /** `next` is the initialized tick closest to `tick` in the swap's direction. */
  ghost predicate IsNearest(ticks: map<int, TickState>, tick: int, next: int, zeroForOne: bool) {
    && MIN_TICK <= next <= MAX_TICK && TickOf(ticks, next).liquidityGross != 0
    && (if zeroForOne then next <= tick else tick < next)
    && forall u :: MIN_TICK <= u <= MAX_TICK && TickOf(ticks, u).liquidityGross != 0 && (if zeroForOne then u <= tick else tick < u) ==>
         if zeroForOne then u <= next else next <= u
  }

  /** The next tick's price, unless the limit comes first. */
  function Aim(s: Setting, priceNext: nat): nat {
    if s.zeroForOne then (if priceNext < s.limit then s.limit else priceNext)
    else if priceNext < s.limit then priceNext else s.limit
  }

  /** The step goes to its target, or as far towards it as what remains of the amount allows; and it charges the
      trade fee, or on base input what is left over when it stops short. */
  ghost predicate StepsTo(s: Setting, p: Path, target: nat, step: SwapStep)
    requires s.feeRate < FEE_RATE_DENOMINATOR
  {
    var missed := step.sqrtPriceNext != target;
    && StepGuarantee(step, p.sqrtPrice, target, p.liquidity, p.remaining, s.feeRate, s.baseInput, s.zeroForOne)
    && (missed && s.baseInput ==>
          step.feeAmount == p.remaining - step.amountIn &&
          exists lessFee :: IsFloor(lessFee, p.remaining * (1_000_000 - s.feeRate), 1_000_000) && step.amountIn <= lessFee &&
            FurtherCostsMore(lessFee, p.sqrtPrice, step.sqrtPriceNext, p.liquidity, s.zeroForOne))
    && (missed && !s.baseInput ==> NearerReleasesLess(p.remaining, p.sqrtPrice, step.sqrtPriceNext, p.liquidity, s.zeroForOne))
    && (!missed || !s.baseInput ==> IsCeil(step.feeAmount, step.amountIn * s.feeRate, 1_000_000 - s.feeRate))
  }

  /** The tick that goes with a price on the way from tick `tick`. */
  ghost predicate IsTickAfter(s: Setting, p: Path, next: int, price: nat, tick: int)
    requires |s.table| == MAX_TICK - MIN_TICK + 1 && MIN_TICK <= next <= MAX_TICK
  {
    if price == Price(s.table, next) then tick == (if s.zeroForOne then next - 1 else next)
    else if price == p.sqrtPrice then tick == p.tick
    else MIN_TICK <= tick < MAX_TICK && Price(s.table, tick) <= price < Price(s.table, tick + 1)
  }

  /** From `p` one step leads to `p'`. */
  ghost predicate Leads(s: Setting, ticks: map<int, TickState>, p: Path, next: int, step: SwapStep, p': Path) {
    && |s.table| == MAX_TICK - MIN_TICK + 1 && s.feeRate < FEE_RATE_DENOMINATOR
    && p.remaining != 0 && p.sqrtPrice != s.limit
    && IsNearest(ticks, p.tick, next, s.zeroForOne)
    && StepsTo(s, p, Aim(s, Price(s.table, next)), step)
    && p'.sqrtPrice == step.sqrtPriceNext
    && p'.remaining == p.remaining - (if s.baseInput then step.amountIn + step.feeAmount else step.amountOut)
    && p'.calculated == p.calculated + (if s.baseInput then step.amountOut else step.amountIn + step.feeAmount)
    && IsTickAfter(s, p, next, step.sqrtPriceNext, p'.tick)
    && p'.liquidity == p.liquidity
         + (if step.sqrtPriceNext != Price(s.table, next) then 0
            else if s.zeroForOne then -TickOf(ticks, next).liquidityNet else TickOf(ticks, next).liquidityNet)
  }

  lemma HopSteps(s: Setting, p: Path, hop: Hop, ticks: map<int, TickState>)
    requires ValidSetting(s) && OnPath(s, p) && HopFrom(s, ticks, p) == Ok(hop)
    ensures ValidTable(s.table) && IsNearest(ticks, p.tick, hop.next, s.zeroForOne)
    ensures hop.priceNext == Price(s.table, hop.next) && StepsTo(s, p, Aim(s, hop.priceNext), hop.step)
  {
    hide StepGuarantee, StepOf, NextTick, FurtherCostsMore, NearerReleasesLess, IsFloor, IsCeil;
    HopIsGood(s, ticks, p);
    NextTickIs(ticks, p.tick, s.zeroForOne);
    var lessFee := StepIsTight(p.sqrtPrice, hop.target, p.liquidity, p.remaining, s.feeRate, s.baseInput, s.zeroForOne);
  }

  /** A turn of the loop is such a step, and crossing leaves all ticks the same to the steps that follow. */
  lemma TurnLeads(s: Setting, config: AmmConfig, pool: PoolState, st: SwapState, st': SwapState, ticks: map<int, TickState>)
    requires ValidSetting(s) && OnPath(s, st.path) && !Done(s, st.path) && SamePath(st.ticks, ticks)
    requires SwapOnce(s, config, pool, st) == Ok(st')
    ensures HopFrom(s, st.ticks, st.path).Ok? && SamePath(st'.ticks, ticks)
    ensures var hop := HopFrom(s, st.ticks, st.path).value; Leads(s, ticks, st.path, hop.next, hop.step, st'.path)
  {
    hide HopFrom, Take, CrossTick, StepsTo, NextTick, TickAtSqrtPrice, OnPath, IsNearest;
    var hop := HopFrom(s, st.ticks, st.path).value;
    HopSteps(s, st.path, hop, st.ticks);
    NearestAlike(st.ticks, ticks, st.path.tick, hop.next, s.zeroForOne);
    HopIsMarked(s, st.ticks, st.path, hop);
    TickAtSqrtPriceIs(s.table, hop.step.sqrtPriceNext);
    CrossedOnlyGrowth(TickOf(st.ticks, hop.next), pool.growthGlobal[InToken(s.zeroForOne) := st'.taken.growth], pool.rewards);
  }

  lemma HopIsMarked(s: Setting, ticks: map<int, TickState>, p: Path, hop: Hop)
    requires HopFrom(s, ticks, p) == Ok(hop)
    ensures hop.crossed <==> hop.step.sqrtPriceNext == hop.priceNext
  {}

  lemma NearestAlike(ticks1: map<int, TickState>, ticks2: map<int, TickState>, tick: int, next: int, zeroForOne: bool)
    requires SamePath(ticks1, ticks2) && IsNearest(ticks1, tick, next, zeroForOne)
    ensures IsNearest(ticks2, tick, next, zeroForOne)
  {}

  // -----------------------------------------------------------------------------------------
  // The route

  datatype Leg = Leg(next: int, step: SwapStep)

  /** Steps from stop to stop. */
  ghost predicate Route(s: Setting, ticks: map<int, TickState>, stops: seq<Path>, legs: seq<Leg>) {
    && |stops| == |legs| + 1
    && forall k :: 0 <= k < |legs| ==> Leads(s, ticks, stops[k], legs[k].next, legs[k].step, stops[k + 1])
  }

  /** All fees times a rate in millionths, each rounded down. */
  function ShareSum(legs: seq<Leg>, rate: nat): nat {
    if legs == [] then 0 else legs[0].step.feeAmount * rate / 1_000_000 + ShareSum(legs[1..], rate)
  }

  /** What protocol and fund leave of a fee. */
  function Rest(fee: nat, config: AmmConfig): int {
    fee - fee * config.protocolFeeRate / 1_000_000 - fee * config.fundFeeRate / 1_000_000
  }

  /** The rest of each fee, on steps with liquidity. */
  function RestSum(stops: seq<Path>, legs: seq<Leg>, config: AmmConfig): int
    requires |stops| == |legs| + 1
  {
    if legs == [] then 0
    else (if stops[0].liquidity > 0 then Rest(legs[0].step.feeAmount, config) else 0) + RestSum(stops[1..], legs[1..], config)
  }

  /** That rest per unit of liquidity, in units of 2^-64, each rounded down. */
  function GrowthSum(stops: seq<Path>, legs: seq<Leg>, config: AmmConfig): int
    requires |stops| == |legs| + 1
  {
    if legs == [] then 0
    else (if stops[0].liquidity > 0 then Rest(legs[0].step.feeAmount, config) * Q64 / stops[0].liquidity else 0)
         + GrowthSum(stops[1..], legs[1..], config)
  }

  /** What the input token's fees come to between two tallies. */
  ghost predicate FeesAdd(before: Takings, after: Takings, stops: seq<Path>, legs: seq<Leg>, config: AmmConfig)
    requires |stops| == |legs| + 1
  {
    && after.protocolFee - before.protocolFee == ShareSum(legs, config.protocolFeeRate)
    && after.fundFee - before.fundFee == ShareSum(legs, config.fundFeeRate)
    && after.lpFee - before.lpFee == RestSum(stops, legs, config)
    && after.growth - before.growth == GrowthSum(stops, legs, config)
  }

  /** One fee, split. */
  lemma TakeAdds(config: AmmConfig, t: Takings, liquidity: nat, fee: nat)
    requires ConfigInv(config) && Take(config, t, liquidity, fee).Ok?
    ensures var t2 := Take(config, t, liquidity, fee).value;
            && t2.protocolFee - t.protocolFee == fee * config.protocolFeeRate / 1_000_000
            && t2.fundFee - t.fundFee == fee * config.fundFeeRate / 1_000_000
            && t2.lpFee - t.lpFee == (if liquidity > 0 then Rest(fee, config) else 0)
            && t2.growth - t.growth == (if liquidity > 0 then Rest(fee, config) * Q64 / liquidity else 0)
  {
    hide IsFloor, Take;
    TakeIsExact(config, t, liquidity, fee);
    var t2 := Take(config, t, liquidity, fee).value;
    FloorIsQuotient(t2.protocolFee - t.protocolFee, fee * config.protocolFeeRate, 1_000_000);
    FloorIsQuotient(t2.fundFee - t.fundFee, fee * config.fundFeeRate, 1_000_000);
    if liquidity > 0 {
      TakeKeepsRest(config, t, liquidity, fee);
      FloorIsQuotient(t2.growth - t.growth, Rest(fee, config) * Q64, liquidity);
    } else {
      TakeNeedsLiquidity(config, t, fee);
    }
  }

  lemma TakeKeepsRest(config: AmmConfig, t: Takings, liquidity: nat, fee: nat)
    requires ConfigInv(config) && Take(config, t, liquidity, fee).Ok? && 0 < liquidity
    ensures Take(config, t, liquidity, fee).value.lpFee >= t.lpFee
  {
    hide MulDivFloor;
    SharesFit(fee, config.protocolFeeRate, config.fundFeeRate);
  }

  lemma TakeNeedsLiquidity(config: AmmConfig, t: Takings, fee: nat)
    requires Take(config, t, 0, fee).Ok?
    ensures Take(config, t, 0, fee).value.lpFee == t.lpFee && Take(config, t, 0, fee).value.growth == t.growth
  {}

  lemma RouteGrows(s: Setting, ticks: map<int, TickState>, p: Path, leg: Leg, stops: seq<Path>, legs: seq<Leg>)
    requires Route(s, ticks, stops, legs) && Leads(s, ticks, p, leg.next, leg.step, stops[0])
    ensures Route(s, ticks, [p] + stops, [leg] + legs)
  {
    hide Leads;
    var stops', legs' := [p] + stops, [leg] + legs;
    forall k | 0 <= k < |legs'| ensures Leads(s, ticks, stops'[k], legs'[k].next, legs'[k].step, stops'[k + 1]) {
      if k > 0 { assert Leads(s, ticks, stops[k - 1], legs[k - 1].next, legs[k - 1].step, stops[k - 1 + 1]); }
    }
  }

  lemma FeesGrow(t0: Takings, t1: Takings, t2: Takings, p: Path, leg: Leg, stops: seq<Path>, legs: seq<Leg>, config: AmmConfig)
    requires |stops| == |legs| + 1 && FeesAdd(t1, t2, stops, legs, config)
    requires var fee := leg.step.feeAmount;
             && t1.protocolFee - t0.protocolFee == fee * config.protocolFeeRate / 1_000_000
             && t1.fundFee - t0.fundFee == fee * config.fundFeeRate / 1_000_000
             && t1.lpFee - t0.lpFee == (if p.liquidity > 0 then Rest(fee, config) else 0)
             && t1.growth - t0.growth == (if p.liquidity > 0 then Rest(fee, config) * Q64 / p.liquidity else 0)
    ensures FeesAdd(t0, t2, [p] + stops, [leg] + legs, config)
  {
    hide Rest;
    assert ([p] + stops)[1..] == stops && ([leg] + legs)[1..] == legs;
  }

  /** The states of the path from `st` on, the last one included. */
  ghost function StopsOf(s: Setting, config: AmmConfig, pool: PoolState, st: SwapState): (stops: seq<Path>)
    requires ValidSetting(s) && OnPath(s, st.path)
    ensures stops != [] && stops[0] == st.path
    decreases Distance(s, st.path)
  {
    if Done(s, st.path) then [st.path]
    else
      var turn := SwapOnce(s, config, pool, st);
      if turn.Err? then [st.path]
      else
        SwapOnceProgresses(s, config, pool, st, turn.value);
        [st.path] + StopsOf(s, config, pool, turn.value)
  }

  /** The loop walks a route, as many legs as it takes turns, and its fees are the route's. */
  lemma {:induction false} LoopIsRoute(s: Setting, config: AmmConfig, pool: PoolState, st: SwapState, end: SwapState, ticks: map<int, TickState>)
    returns (stops: seq<Path>, legs: seq<Leg>)
    requires ValidSetting(s) && OnPath(s, st.path) && SamePath(st.ticks, ticks) && ConfigInv(config)
    requires SwapLoop(s, config, pool, st) == Ok(end)
    ensures |stops| == |legs| + 1 && Route(s, ticks, stops, legs) && stops[0] == st.path && stops[|legs|] == end.path
    ensures end.path.remaining == 0 || end.path.sqrtPrice == s.limit
    ensures FeesAdd(st.taken, end.taken, stops, legs, config) && SamePath(end.ticks, ticks)
    ensures |legs| == Turns(s, config, pool, st) && stops == StopsOf(s, config, pool, st)
    decreases Distance(s, st.path)
  {
    hide OnPath, ValidSetting, SwapOnce, Distance, Leads, SamePath, ConfigInv, FeesAdd, HopFrom;
    if Done(s, st.path) {
      stops, legs := [st.path], [];
      assert FeesAdd(st.taken, end.taken, stops, legs, config) by { NoFees(st.taken, st.path, config); }
    } else {
      var st' := SwapOnce(s, config, pool, st).value;
      SwapOnceProgresses(s, config, pool, st, st');
      TurnLeads(s, config, pool, st, st', ticks);
      TurnTakes(s, config, pool, st, st');
      var rest, left := LoopIsRoute(s, config, pool, st', end, ticks);
      var hop := HopFrom(s, st.ticks, st.path).value;
      var leg := Leg(hop.next, hop.step);
      RouteGrows(s, ticks, st.path, leg, rest, left);
      TakeAdds(config, st.taken, st.path.liquidity, hop.step.feeAmount);
      FeesGrow(st.taken, st'.taken, end.taken, st.path, leg, rest, left, config);
      stops, legs := [st.path] + rest, [leg] + left;
    }
  }

  lemma NoFees(t: Takings, p: Path, config: AmmConfig)
    ensures FeesAdd(t, t, [p], [], config)
  {}

  lemma TurnTakes(s: Setting, config: AmmConfig, pool: PoolState, st: SwapState, st': SwapState)
    requires SwapOnce(s, config, pool, st) == Ok(st')
    ensures HopFrom(s, st.ticks, st.path).Ok?
    ensures Take(config, st.taken, st.path.liquidity, HopFrom(s, st.ticks, st.path).value.step.feeAmount) == Ok(st'.taken)
  {
    hide HopFrom, Advance, Take, CrossTick;
  }

  // -----------------------------------------------------------------------------------------
  // The instruction

  /** The limit a caller leaves open is the extreme price. */
  function PriceLimit(limit: nat, zeroForOne: bool): nat {
    if limit != 0 then limit else if zeroForOne then 4295048017 else 79226673521066979257578248090
  }

  ghost function SettingOf(l: Ledger, limit: nat, zeroForOne: bool, baseInput: bool): Setting {
    Setting(l.table, l.config.tradeFeeRate, PriceLimit(limit, zeroForOne), baseInput, zeroForOne)
  }

  /** Open, not switched off, and with a limit on the right side of the price. */
  predicate MaySwap(l: Ledger, amount: nat, limit: nat, zeroForOne: bool) {
    && amount != 0 && l.pool.openTime < l.now && SwapOp !in l.pool.disabled
    && (if zeroForOne then 4295048016 < PriceLimit(limit, zeroForOne) < l.pool.sqrtPrice
        else l.pool.sqrtPrice < PriceLimit(limit, zeroForOne) < 79226673521066979257578248091)
  }

  /** From the pool's price, tick and liquidity all of the amount is used up, or the limit is reached. */
  ghost predicate RouteOf(l: Ledger, amount: nat, limit: nat, zeroForOne: bool, baseInput: bool, stops: seq<Path>, legs: seq<Leg>) {
    var s := SettingOf(l, limit, zeroForOne, baseInput);
    && Route(s, l.ticks, stops, legs)
    && stops[0] == Path(amount, 0, l.pool.sqrtPrice, l.pool.tickCurrent, l.pool.liquidity)
    && (stops[|legs|].remaining == 0 || stops[|legs|].sqrtPrice == s.limit)
  }

  /** What the caller pays in and gets out, when the route ends at `end`. */
  function InOf(amount: nat, end: Path, baseInput: bool): int {
    if baseInput then amount - end.remaining else end.calculated
  }

  function OutOf(amount: nat, end: Path, baseInput: bool): int {
    if baseInput then end.calculated else amount - end.remaining
  }

  /** The vaults after a swap of token `c` for the other one. */
  ghost predicate TokensMoved(l: Ledger, l': Ledger, c: int, paid: int, out: int)
    requires 0 <= c < 2
  {
    && l'.vaults[c] == l.vaults[c] + paid && l'.vaults[1 - c] == l.vaults[1 - c] - out
    && l'.pool.disabled == (if out == l.vaults[1 - c] then {IncreaseOp, DecreaseOp, CollectFeeOp, CollectRewardOp, SwapOp} else l.pool.disabled)
  }

  /** The fees of the input token `c`; those of the other token stand. */
  ghost predicate FeesTaken(before: PoolState, after: PoolState, c: int, stops: seq<Path>, legs: seq<Leg>, config: AmmConfig)
    requires 0 <= c < 2 && |stops| == |legs| + 1
  {
    && after.protocolFees[c] == before.protocolFees[c] + ShareSum(legs, config.protocolFeeRate)
    && after.fundFees[c] == before.fundFees[c] + ShareSum(legs, config.fundFeeRate)
    && after.total[c] == before.total[c] + RestSum(stops, legs, config)
    && after.growthGlobal[c] == before.growthGlobal[c] + GrowthSum(stops, legs, config)
    && after.protocolFees[1 - c] == before.protocolFees[1 - c] && after.fundFees[1 - c] == before.fundFees[1 - c]
    && (forall d :: 0 <= d < 5 && d != c ==> after.total[d] == before.total[d] && after.growthGlobal[d] == before.growthGlobal[d])
  }

  /** A pool at the end of the route, apart from its fees. */
  ghost predicate Arrived(updated: PoolState, after: PoolState, end: Path) {
    && after.sqrtPrice == end.sqrtPrice && after.tickCurrent == end.tick && after.liquidity == end.liquidity
    && after.rewards == updated.rewards && after.claimed == updated.claimed
    && after.tickSpacing == updated.tickSpacing && after.openTime == updated.openTime
  }

  /** A swap that goes through, said as a whole. */
  ghost predicate SwapDoes(l: Ledger, amount: nat, threshold: nat, limit: nat, zeroForOne: bool, baseInput: bool, l': Ledger,
                           stops: seq<Path>, legs: seq<Leg>)
  {
    && MaySwap(l, amount, limit, zeroForOne)
    && RouteOf(l, amount, limit, zeroForOne, baseInput, stops, legs)
    && var c, end := if zeroForOne then 0 else 1, stops[|legs|];
    && var paid, out := InOf(amount, end, baseInput), OutOf(amount, end, baseInput);
    && paid > 0 && out > 0 && (if baseInput then threshold <= out else paid <= threshold)
    && TokensMoved(l, l', c, paid, out)
    && (exists updated :: RewardsUpdated(l.pool, updated, l.now % 0x1_0000_0000) && Arrived(updated, l'.pool, end) &&
                          FeesTaken(updated, l'.pool, c, stops, legs, l.config))
    && SamePath(l'.ticks, l.ticks) && l' == l.(pool := l'.pool, ticks := l'.ticks, vaults := l'.vaults)
  }

  lemma SettlesAs(s: Setting, l: Ledger, amount: nat, st: SwapState, threshold: nat, l': Ledger, stops: seq<Path>, legs: seq<Leg>)
    requires Settle(s, l, amount, st, threshold) == Ok(l') && |stops| == |legs| + 1 && stops[|legs|] == st.path
    requires FeesAdd(Takings(l.pool.growthGlobal[InToken(s.zeroForOne)], 0, 0, 0), st.taken, stops, legs, l.config)
    ensures var c := if s.zeroForOne then 0 else 1;
            && var paid, out := InOf(amount, st.path, s.baseInput), OutOf(amount, st.path, s.baseInput);
            && paid > 0 && out > 0 && (if s.baseInput then threshold <= out else paid <= threshold)
            && TokensMoved(l, l', c, paid, out)
            && Arrived(l.pool, l'.pool, st.path) && FeesTaken(l.pool, l'.pool, c, stops, legs, l.config)
            && l' == l.(pool := l'.pool, ticks := st.ticks, vaults := l'.vaults)
  {
    hide ShareSum, RestSum, GrowthSum;
  }

  /** The stops of the loop's walk. */
  ghost function SwapStops(l: Ledger, amount: nat, limit: nat, zeroForOne: bool, baseInput: bool): seq<Path>
    requires PriceInv(l) && ConfigInv(l.config)
  {
    var s := Setting(l.table, l.config.tradeFeeRate, LimitOrDefault(limit, zeroForOne), baseInput, zeroForOne);
    var pool := UpdateRewardInfos(l.pool, l.now % U32_LIMIT);
    if pool.Err? || !LimitInRange(s.limit, l.pool.sqrtPrice, zeroForOne) then []
    else
      StartsOnPath(s, l, pool.value, amount);
      StopsOf(s, l.config, pool.value, Start(pool.value, l.ticks, amount, zeroForOne))
  }

  /** Every successful swap walks a route, and leaves behind what its legs add up to. */
  lemma SwapIsRoute(l: Ledger, amount: nat, threshold: nat, limit: nat, zeroForOne: bool, baseInput: bool, l': Ledger)
    returns (stops: seq<Path>, legs: seq<Leg>)
    requires PriceInv(l) && ConfigInv(l.config) && Swap(l, amount, threshold, limit, zeroForOne, baseInput) == Ok(l')
    ensures SwapDoes(l, amount, threshold, limit, zeroForOne, baseInput, l', stops, legs)
    ensures |stops| == |legs| + 1 && stops == SwapStops(l, amount, limit, zeroForOne, baseInput)
  {
    hide SwapLoop, UpdateRewardInfos, PriceInv, ConfigInv, RewardUpdated, Route, FeesAdd, SamePath, Settle, FeesTaken, Arrived,
      OnPath, ValidSetting,
      StopsOf;
    var s := SettingOf(l, limit, zeroForOne, baseInput);
    var timestamp := l.now % U32_LIMIT;
    var updated := UpdateRewardInfos(l.pool, timestamp).value;
    InfosUpdate(l.pool, timestamp);
    RewardsKeepPrice(l.pool, timestamp);
    StartsOnPath(s, l, updated, amount);
    assert SamePath(l.ticks, l.ticks) by { SameToItself(l.ticks); }
    var st := Start(updated, l.ticks, amount, zeroForOne);
    var end := SwapLoop(s, l.config, updated, st).value;
    stops, legs := LoopIsRoute(s, l.config, updated, st, end, l.ticks);
    SettlesAs(s, l.(pool := updated), amount, end, threshold, l', stops, legs);
  }

  lemma SameToItself(ticks: map<int, TickState>)
    ensures SamePath(ticks, ticks)
  {}
}
