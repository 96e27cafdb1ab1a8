/** How the growth inside a range adds up: over one instruction, over the turns of one swap, and over a
    whole run, it is exactly what accrued while the current tick was inside the range. */
module Earnings {
  import opened Wrappers
  import opened FullMath
  import opened PoolTypes
  import opened TickGrowth
  import opened Ledger
  import opened Invariants
  import opened ClaimLemmas
  import opened PositionLemmas
  import opened Vaults
  import opened PositionSafety
  import opened DecreaseSafety
  import opened OpenSafety
  import opened RewardAdmin
  import opened SwapPath
  import opened SwapLedger
  import opened SwapSafety
  import opened Machine
  import opened History

  // -----------------------------------------------------------------------------------------
  // Growth while the current tick stands

  predicate Within(tick: int, lower: int, upper: int) {
    lower <= tick < upper
  }

  /** What accrues inside a range when the pool's growth goes from one value to another. */
  function AddedInside(from: int, to: int, tick: int, lower: int, upper: int): int {
    if Within(tick, lower, upper) then to - from else 0
  }

  /** What accrued inside a range between two states with the same current tick. */
  function PoolAdds(l: Ledger, l': Ledger, lower: int, upper: int, c: int): int
    requires 0 <= c < 5
  {
    AddedInside(l.pool.growthGlobal[c], l'.pool.growthGlobal[c], l.pool.tickCurrent, lower, upper)
  }

  lemma GrowthFrame(l: Ledger, l': Ledger, p: ProtocolPosition, c: int)
    requires l'.ticks == l.ticks && l'.pool.tickCurrent == l.pool.tickCurrent && p.tickLower < p.tickUpper && 0 <= c < 5
    ensures RangeGrowth(l', p, c) == RangeGrowth(l, p, c) + PoolAdds(l, l', p.tickLower, p.tickUpper, c)
  {
    var from: int, to: int := l.pool.growthGlobal[c], l'.pool.growthGlobal[c];
    InsideAccrues(from, to - from, TickOf(l.ticks, p.tickLower).growthOutside[c], TickOf(l.ticks, p.tickUpper).growthOutside[c],
                  l.pool.tickCurrent, p.tickLower, p.tickUpper);
  }

  /** A range with liquidity before and after an instruction. */
  predicate LiveThrough(l: Ledger, l': Ledger, k: nat) {
    k < |l.protocols| && k < |l'.protocols| && l.protocols[k].liquidity > 0 && l'.protocols[k].liquidity > 0
  }

  /** The range keeps its ends and accrues what the pool does while it is in range. */
  ghost predicate Accrues(l: Ledger, l': Ledger, k: nat, c: int)
    requires k < |l.protocols| && 0 <= c < 5
  {
    var p := l.protocols[k];
    && k < |l'.protocols| && l'.protocols[k].tickLower == p.tickLower && l'.protocols[k].tickUpper == p.tickUpper
    && l'.pool.tickCurrent == l.pool.tickCurrent
    && RangeGrowth(l', p, c) == RangeGrowth(l, p, c) + PoolAdds(l, l', p.tickLower, p.tickUpper, c)
  }

  lemma StandingAccrues(l: Ledger, l': Ledger, k: nat, c: int)
    requires Stands(l, l') && ValidRanges(l) && k < |l.protocols| && 0 <= c < 5
    ensures Accrues(l, l', k, c)
  {
    GrowthFrame(l, l', l.protocols[k], c);
  }

  lemma AccruesOn(l: Ledger, mid: Ledger, l': Ledger, k: nat, c: int)
    requires k < |l.protocols| && 0 <= c < 5 && Accrues(l, mid, k, c) && Stands(mid, l') && l'.pool.growthGlobal == mid.pool.growthGlobal
    ensures Accrues(l, l', k, c)
  {}

  lemma SameRange(l: Ledger, p: ProtocolPosition, q: ProtocolPosition, c: int)
    requires 0 <= c < 5 && p.tickLower == q.tickLower && p.tickUpper == q.tickUpper
    ensures RangeGrowth(l, p, c) == RangeGrowth(l, q, c)
  {}

  /** Liquidity that comes or goes, with the rewards brought up to date before. */
  lemma ModifiedAccrues(l: Ledger, j: nat, delta: int, m: Modified, k: nat, c: int)
    requires Inv(l) && j < |l.protocols| && Modifies(l, j, delta, l.now, m) && 0 <= c < 5
    requires LiveThrough(l, StoreModified(l, j, m), k)
    ensures Accrues(l, StoreModified(l, j, m), k, c)
  {
    hide HoldingsInv, AccrualInv, ClaimsCovered, PriceInv, VaultsInv, ConfigInv, TotalsFit, LiquidityInv, NamedSlots, GrowthInv, Modifies,
      UpdateRewardInfos, RangeGrowth, SlotMoved;
    WithRewardsKeepsInv(l, l.now);
    ModifyMoves(l, j, delta, l.now, m);
    var l1, l2 := WithRewards(l, l.now), StoreModified(l, j, m);
    MovedKeepsTotals(l1, l2, j, delta);
    MovedKeepsSlots(l1, l2, j, delta);
    MovedKeepsGrowth(l1, l2, j, delta, k);
    GrowthFrame(l, l1, l.protocols[k], c);
    SameRange(l2, l2.protocols[k], l.protocols[k], c);
  }

  lemma IncreaseAccrues(l: Ledger, i: nat, liquidity: nat, max0: nat, max1: nat, baseFlag: Option<bool>, l': Ledger, k: nat, c: int)
    requires Inv(l) && i < |l.personals| && l.personals[i].protocol < |l.protocols| && 0 <= c < 5
    requires IncreaseLiquidity(l, i, liquidity, max0, max1, baseFlag) == Ok(l') && LiveThrough(l, l', k)
    ensures Accrues(l, l', k, c)
  {
    hide Inv, IncreaseLiquidity, Modifies, Credit;
    var amount, m, p := IncreaseUnfolds(l, i, liquidity, max0, max1, baseFlag, l');
    ModifiedAccrues(l, l.personals[i].protocol, amount, m, k, c);
  }

  lemma DecreaseAccrues(l: Ledger, i: nat, liquidity: nat, min0: nat, min1: nat, l': Ledger, k: nat, c: int)
    requires Inv(l) && i < |l.personals| && l.personals[i].protocol < |l.protocols| && 0 <= c < 5
    requires DecreaseLiquidity(l, i, liquidity, min0, min1) == Ok(l') && LiveThrough(l, l', k)
    ensures Accrues(l, l', k, c)
  {
    hide DecreaseLiquidity, Modifies, Credit, AccrualInv, ClaimsCovered, HoldingsInv, LiquidityInv, NamedSlots, GrowthInv,
      PriceInv, VaultsInv, TotalsFit, BurnLiquidity;
    PaymentStands(l, i, liquidity, min0, min1);
    var (burnt, amount0, amount1) := BurnAndCredit(l, i, liquidity).value;
    if DecreaseOp !in l.pool.disabled {
      var m, p := BurnAndCreditUnfolds(l, i, liquidity, burnt, amount0, amount1);
      ModifiedAccrues(l, l.personals[i].protocol, 0 - liquidity, m, k, c);
    }
    AccruesOn(l, burnt, l', k, c);
  }

  lemma CreatedAccruesNothing(l: Ledger, tickLower: int, tickUpper: int, p: ProtocolPosition, c: int)
    requires 0 <= c < 5
    ensures RangeGrowth(Created(l, tickLower, tickUpper), p, c) == RangeGrowth(l, p, c)
  {}

  /** What creating a range leaves alone. */
  lemma CreatedStands(l: Ledger, tickLower: int, tickUpper: int, k: nat)
    requires k < |l.protocols|
    ensures var made := Created(l, tickLower, tickUpper);
            k < |made.protocols| && made.protocols[k] == l.protocols[k] && made.pool == l.pool && made.now == l.now
  {}

  lemma OpenAccrues(l: Ledger, tickLower: int, tickUpper: int, liquidity: nat, max0: nat, max1: nat, baseFlag: Option<bool>,
                    l': Ledger, k: nat, c: int)
    requires Inv(l) && OpenPosition(l, tickLower, tickUpper, liquidity, max0, max1, baseFlag) == Ok(l') && 0 <= c < 5
    requires LiveThrough(l, l', k)
    ensures Accrues(l, l', k, c)
  {
    hide Inv, AddLiquidity, FindOrCreate, Modifies, Created, OpenPosition, RangeGrowth;
    var found, j, added := OpenParts(l, tickLower, tickUpper, liquidity, max0, max1, baseFlag, l');
    FindOrCreateIs(l, tickLower, tickUpper);
    CreatedStands(l, tickLower, tickUpper, k);
    CreatedAccruesNothing(l, tickLower, tickUpper, l.protocols[k], c);
    if liquidity > 0 {
      CreatedKeepsInv(l, tickLower, tickUpper);
      var amount, m := AddUnfolds(found, j, liquidity, max0, max1, baseFlag, l.now, added);
      ModifiedAccrues(found, j, liquidity, m, k, c);
      SameAccumulators(added, StoreModified(found, j, m), l.protocols[k], c);
    }
    SameAccumulators(l', added, l.protocols[k], c);
  }

  lemma SameAccumulators(l: Ledger, l': Ledger, p: ProtocolPosition, c: int)
    requires 0 <= c < 5 && l.ticks == l'.ticks && l.pool == l'.pool
    ensures RangeGrowth(l, p, c) == RangeGrowth(l', p, c)
  {}

  // -----------------------------------------------------------------------------------------
  // The turns of a swap

  /** The growth of the input token in those turns that start inside the range. */
  ghost function LoopAdds(s: Setting, config: AmmConfig, pool: PoolState, st: SwapState, lower: int, upper: int): int
    requires ValidSetting(s) && OnPath(s, st.path)
    decreases Distance(s, st.path)
  {
    if Done(s, st.path) then 0
    else
      var turn := SwapOnce(s, config, pool, st);
      if turn.Err? then 0
      else
        SwapOnceProgresses(s, config, pool, st, turn.value);
        AddedInside(st.taken.growth, turn.value.taken.growth, st.path.tick, lower, upper)
        + LoopAdds(s, config, pool, turn.value, lower, upper)
  }

  /** One turn: the fee accrues to the ranges around the tick it starts at, and crossing changes nothing. */
  lemma TurnAccrues(s: Setting, l: Ledger, amount: nat, st: SwapState, hop: Hop, st': SwapState, forLiquidity: nat, k: nat, c: int)
    requires ValidSetting(s) && OnPath(s, st.path) && Turn(s, l, st, hop, st', forLiquidity)
    requires ClaimsInv(Midway(s, l, amount, st)) && k < |l.protocols| && l.protocols[k].liquidity > 0 && 0 <= c < 5
    ensures var p := l.protocols[k];
            RangeGrowth(Midway(s, l, amount, st'), p, c) == RangeGrowth(Midway(s, l, amount, st), p, c)
              + (if c == InToken(s.zeroForOne) then AddedInside(st.taken.growth, st'.taken.growth, st.path.tick, p.tickLower, p.tickUpper) else 0)
  {
    hide HoldingsInv, AccrualInv, ClaimsCovered, LiquidityInv, NamedSlots, GrowthInv, GoodHop, Advance, CrossTick, Split, OnPath,
      RangeGrowth, TickMoved;
    RepricedKeepsClaims(s, l, amount, st, st');
    var sign := TurnMovesTick(s, l, amount, st, hop, st', forLiquidity);
    TickMovedKeepsGrowth(Repriced(s, l, amount, st, st'), Midway(s, l, amount, st'), st'.path.tick, hop.next, sign, k, c);
    GrowthFrame(Midway(s, l, amount, st), Repriced(s, l, amount, st, st'), l.protocols[k], c);
  }

  /** All turns: the growth inside a live range moves by the sum over the turns that start inside it. */
  lemma {:induction false} LoopAccrues(s: Setting, l: Ledger, amount: nat, st: SwapState, k: nat, c: int)
    requires ValidSetting(s) && s.table == l.table && s.feeRate == l.config.tradeFeeRate && ConfigInv(l.config)
    requires OnPath(s, st.path) && TradeInv(Midway(s, l, amount, st))
    requires k < |l.protocols| && l.protocols[k].liquidity > 0 && 0 <= c < 5
    ensures var r, p := SwapLoop(s, l.config, l.pool, st), l.protocols[k];
            r.Ok? ==>
              RangeGrowth(Midway(s, l, amount, r.value), p, c) == RangeGrowth(Midway(s, l, amount, st), p, c)
                + (if c == InToken(s.zeroForOne) then LoopAdds(s, l.config, l.pool, st, p.tickLower, p.tickUpper) else 0)
    decreases Distance(s, st.path)
  {
    hide OnPath, ValidSetting, ClaimsInv, PriceInv, VaultsInv, SwapOnce, Midway, Distance, Turn, RangeGrowth;
    if !Done(s, st.path) {
      var turn := SwapOnce(s, l.config, l.pool, st);
      if turn.Ok? {
        SwapOnceProgresses(s, l.config, l.pool, st, turn.value);
        var hop, forLiquidity := SwapOnceTurns(s, l.config, l, st, turn.value);
        TurnKeepsTrade(s, l, amount, st, hop, turn.value, forLiquidity);
        TurnAccrues(s, l, amount, st, hop, turn.value, forLiquidity, k, c);
        LoopAccrues(s, l, amount, turn.value, k, c);
      }
    }
  }

  /** What a swap adds inside a range: rewards up to the swap, then the input token's fees turn by turn. */
  ghost function SwapAdds(l: Ledger, amount: nat, limit: nat, zeroForOne: bool, baseInput: bool, lower: int, upper: int, c: int): int
    requires PriceInv(l) && ConfigInv(l.config) && 0 <= c < 5
  {
    var s := Setting(l.table, l.config.tradeFeeRate, LimitOrDefault(limit, zeroForOne), baseInput, zeroForOne);
    var updated := UpdateRewardInfos(l.pool, l.now % U32_LIMIT);
    if updated.Err? || !LimitInRange(s.limit, l.pool.sqrtPrice, zeroForOne) then 0
    else
      StartsOnPath(s, l, updated.value, amount);
      AddedInside(l.pool.growthGlobal[c], updated.value.growthGlobal[c], l.pool.tickCurrent, lower, upper)
      + (if c == InToken(zeroForOne)
         then LoopAdds(s, l.config, updated.value, Start(updated.value, l.ticks, amount, zeroForOne), lower, upper)
         else 0)
  }

  lemma SettledGrowth(s: Setting, l: Ledger, amount: nat, st: SwapState, threshold: nat, l': Ledger, p: ProtocolPosition, c: int)
    requires Settle(s, l, amount, st, threshold) == Ok(l') && 0 <= c < 5
    ensures RangeGrowth(l', p, c) == RangeGrowth(Midway(s, l, amount, st), p, c)
  {}

  lemma SwapAccrues(l: Ledger, amount: nat, threshold: nat, limit: nat, zeroForOne: bool, baseInput: bool, l': Ledger, k: nat, c: int)
    requires Inv(l) && Swap(l, amount, threshold, limit, zeroForOne, baseInput) == Ok(l')
    requires k < |l.protocols| && l.protocols[k].liquidity > 0 && 0 <= c < 5
    ensures var p := l.protocols[k];
            RangeGrowth(l', p, c) == RangeGrowth(l, p, c) + SwapAdds(l, amount, limit, zeroForOne, baseInput, p.tickLower, p.tickUpper, c)
  {
    hide SwapLoop, Settle, ClaimsInv, VaultsInv, TotalsFit, ConfigInv, UpdateRewardInfos, Start, RangeGrowth, LoopAdds;
    var s := Setting(l.table, l.config.tradeFeeRate, LimitOrDefault(limit, zeroForOne), baseInput, zeroForOne);
    WithRewardsKeepsInv(l, l.now % U32_LIMIT);
    var l1 := WithRewards(l, l.now % U32_LIMIT);
    StartsOnPath(s, l, l1.pool, amount);
    var st := Start(l1.pool, l.ticks, amount, zeroForOne);
    StartIsUnchanged(s, l1, amount);
    assert l.protocols[k].tickLower < l.protocols[k].tickUpper by { RangesAreOrdered(l, k); }
    GrowthFrame(l, l1, l.protocols[k], c);
    LoopAccrues(s, l1, amount, st, k, c);
    SettledGrowth(s, l1, amount, SwapLoop(s, l.config, l1.pool, st).value, threshold, l', l.protocols[k], c);
  }

  lemma RangesAreOrdered(l: Ledger, k: nat)
    requires Inv(l) && k < |l.protocols|
    ensures l.protocols[k].tickLower < l.protocols[k].tickUpper
  {}

  // -----------------------------------------------------------------------------------------
  // Any instruction, any run

  /** What a successful instruction adds inside a range. */
  ghost function StepAdds(l: Ledger, op: Instruction, lower: int, upper: int, c: int): int
    requires PoolInv(l) && Apply(l, op).Ok? && 0 <= c < 5
  {
    if op.Trade? then SwapAdds(l, op.amount, op.limit, op.zeroForOne, op.baseInput, lower, upper, c)
    else PoolAdds(l, Apply(l, op).value, lower, upper, c)
  }

  lemma StepAccrues(l: Ledger, op: Instruction, l': Ledger, k: nat, c: int)
    requires PoolInv(l) && Apply(l, op) == Ok(l') && LiveThrough(l, l', k) && 0 <= c < 5
    ensures var p := l.protocols[k];
            && l'.protocols[k].tickLower == p.tickLower && l'.protocols[k].tickUpper == p.tickUpper
            && RangeGrowth(l', p, c) == RangeGrowth(l, p, c) + StepAdds(l, op, p.tickLower, p.tickUpper, c)
  {
    hide TimesInv, Swap, SwapAdds, RangeGrowth, OpenPosition, IncreaseLiquidity, DecreaseLiquidity, AccrualInv, ClaimsCovered,
      PriceInv, VaultsInv, TotalsFit;
    match op
    case Open(tickLower, tickUpper, liquidity, max0, max1, baseFlag) =>
      OpenAccrues(l, tickLower, tickUpper, liquidity, max0, max1, baseFlag, l', k, c);
    case Increase(i, liquidity, max0, max1, baseFlag) => IncreaseAccrues(l, i, liquidity, max0, max1, baseFlag, l', k, c);
    case Decrease(i, liquidity, min0, min1) => DecreaseAccrues(l, i, liquidity, min0, min1, l', k, c);
    case Trade(amount, threshold, limit, zeroForOne, baseInput) =>
      TradeKeepsOwners(l, op, l', k);
      SwapAccrues(l, amount, threshold, limit, zeroForOne, baseInput, l', k, c);
    case _ =>
      OthersStand(l, op, l');
      StandingAccrues(l, l', k, c);
  }

  /** Range `k` has liquidity in every state of a run. */
  ghost predicate AlwaysLive(l: Ledger, events: seq<Event>, k: nat)
    requires PoolInv(l)
    decreases |events|
  {
    && k < |l.protocols| && l.protocols[k].liquidity > 0
    && (events != [] ==> (NextKeepsInv(l, events[0]); AlwaysLive(Next(l, events[0]), events[1..], k)))
  }

  /** What a run adds inside a range, instruction by instruction. */
  ghost function RunAdds(l: Ledger, events: seq<Event>, lower: int, upper: int, c: int): int
    requires PoolInv(l) && 0 <= c < 5
    decreases |events|
  {
    if events == [] then 0
    else
      NextKeepsInv(l, events[0]);
      NextAdds(l, events[0], lower, upper, c) + RunAdds(Next(l, events[0]), events[1..], lower, upper, c)
  }

  ghost function NextAdds(l: Ledger, e: Event, lower: int, upper: int, c: int): int
    requires PoolInv(l) && 0 <= c < 5
  {
    WaitingKeepsInv(l, e.elapsed);
    if Apply(After(l, e.elapsed), e.op).Ok? then StepAdds(After(l, e.elapsed), e.op, lower, upper, c) else 0
  }

  lemma NextAccrues(l: Ledger, e: Event, k: nat, c: int)
    requires PoolInv(l) && LiveThrough(l, Next(l, e), k) && 0 <= c < 5
    ensures var p, l' := l.protocols[k], Next(l, e);
            && l'.protocols[k].tickLower == p.tickLower && l'.protocols[k].tickUpper == p.tickUpper
            && RangeGrowth(l', p, c) == RangeGrowth(l, p, c) + NextAdds(l, e, p.tickLower, p.tickUpper, c)
  {
    hide PoolInv, Apply, RangeGrowth, StepAdds;
    WaitingKeepsInv(l, e.elapsed);
    var waited := After(l, e.elapsed);
    SameAccumulators(l, waited, l.protocols[k], c);
    var r := Apply(waited, e.op);
    if r.Ok? { StepAccrues(waited, e.op, r.value, k, c); }
  }

  /** Over any run through which a range has liquidity, the growth inside it moves by exactly what accrued
      while the current tick was inside. */
  lemma {:induction false} RunAccrues(l: Ledger, events: seq<Event>, k: nat, c: int)
    requires PoolInv(l) && AlwaysLive(l, events, k) && 0 <= c < 5
    ensures var p, l' := l.protocols[k], Run(l, events);
            && k < |l'.protocols| && l'.protocols[k].liquidity > 0
            && l'.protocols[k].tickLower == p.tickLower && l'.protocols[k].tickUpper == p.tickUpper
            && RangeGrowth(l', p, c) == RangeGrowth(l, p, c) + RunAdds(l, events, p.tickLower, p.tickUpper, c)
    decreases |events|
  {
    hide PoolInv, Next, RangeGrowth, NextAdds;
    if events != [] {
      var next := Next(l, events[0]);
      NextKeepsInv(l, events[0]);
      NextAccrues(l, events[0], k, c);
      RunAccrues(next, events[1..], k, c);
      SameRange(next, next.protocols[k], l.protocols[k], c);
      SameRange(Run(l, events), next.protocols[k], l.protocols[k], c);
    }
  }

  /** What `get_fee_growth_inside` and `get_reward_growths_inside` report for a range. */
  function Reported(l: Ledger, lower: int, upper: int): Result<Five> {
    GrowthInside(TickOf(l.ticks, lower), TickOf(l.ticks, upper), l.pool.tickCurrent, l.pool.growthGlobal, l.pool.rewards)
  }

  lemma ReportIsRaw(l: Ledger, k: nat, inside: Five, c: int)
    requires PoolInv(l) && k < |l.protocols| && l.protocols[k].liquidity > 0 && 0 <= c < 5
    requires Reported(l, l.protocols[k].tickLower, l.protocols[k].tickUpper) == Ok(inside)
    ensures inside[c] == WrappingSub(RangeGrowth(l, l.protocols[k], c), 0)
  {
    hide HoldingsInv, AccrualInv, ClaimsCovered, PriceInv, VaultsInv, ConfigInv, TotalsFit, TimesInv, RangeGrowth, GrowthInside;
    LiveRangeIsInitialized(l, k);
    var p := l.protocols[k];
    RecordedInside(l, p, TickOf(l.ticks, p.tickLower), TickOf(l.ticks, p.tickUpper), inside);
  }

  /** What the program reports before and after a run differs, in wrapping arithmetic, by exactly what the
      run added while the range contained the current tick. */
  lemma ReportsTelescope(l: Ledger, events: seq<Event>, k: nat, before: Five, after: Five, c: int)
    requires PoolInv(l) && AlwaysLive(l, events, k) && 0 <= c < 5
    requires var p := l.protocols[k];
             Reported(l, p.tickLower, p.tickUpper) == Ok(before) && Reported(Run(l, events), p.tickLower, p.tickUpper) == Ok(after)
    ensures var p := l.protocols[k];
            WrappingSub(after[c], before[c]) == WrappingSub(RunAdds(l, events, p.tickLower, p.tickUpper, c), 0)
  {
    hide PoolInv, Next, RangeGrowth, NextAdds, Reported, RunAdds, Run;
    RunAccrues(l, events, k, c);
    RunKeepsInv(l, events);
    var l' := Run(l, events);
    SameRange(l', l'.protocols[k], l.protocols[k], c);
    ReportIsRaw(l, k, before, c);
    ReportIsRaw(l', k, after, c);
    WrappedDifference(RangeGrowth(l', l.protocols[k], c), RangeGrowth(l, l.protocols[k], c));
  }

  lemma WrappedDifference(x: int, y: int)
    ensures WrappingSub(WrappingSub(x, 0), WrappingSub(y, 0)) == WrappingSub(x - y, 0)
  {
    var p, q := x / U128_LIMIT, y / U128_LIMIT;
    assert WrappingSub(x, 0) - WrappingSub(y, 0) == (x - y) - (p - q) * U128_LIMIT;
  }
}
