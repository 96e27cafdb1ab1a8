/** Every turn of the swap loop keeps the invariants of the pool, and so does the whole swap. */
module SwapSafety {
  import opened Wrappers
  import opened FullMath
  import opened LiquidityMath
  import opened PoolTypes
  import opened TickGrowth
  import opened Ledger
  import opened Sums
  import opened Invariants
  import opened ClaimLemmas
  import opened PositionLemmas
  import opened Vaults
  import opened PositionSafety
  import opened SwapMath
  import opened SwapValue
  import opened SwapPath
  import opened SwapLedger
  import DecreaseSafety

  /** What holds between two turns, apart from the settings. */
  ghost predicate TradeInv(l: Ledger) {
    ClaimsInv(l) && PriceInv(l) && VaultsInv(l)
  }

  // -----------------------------------------------------------------------------------------
  // Splitting the fee

  lemma SharesFit(fee: nat, rate0: nat, rate1: nat)
    requires rate0 + rate1 <= FEE_RATE_DENOMINATOR
    ensures ShareOf(fee, rate0) + ShareOf(fee, rate1) <= fee
  {
    var a, b := ShareOf(fee, rate0), ShareOf(fee, rate1);
    FloorDivIs(fee * rate0, FEE_RATE_DENOMINATOR);
    FloorDivIs(fee * rate1, FEE_RATE_DENOMINATOR);
    assert a * FEE_RATE_DENOMINATOR <= fee * rate0 && b * FEE_RATE_DENOMINATOR <= fee * rate1;
    MulLe(rate0 + rate1, FEE_RATE_DENOMINATOR, fee);
    assert (a + b) * FEE_RATE_DENOMINATOR <= (rate0 + rate1) * fee;
    MulLeCancel(a + b, fee, FEE_RATE_DENOMINATOR);
  }

  /** `t2` is `t1` after a fee was split: nothing of it is lost, and the growth is paid for. */
  ghost predicate Split(t1: Takings, t2: Takings, liquidity: nat, fee: nat, forLiquidity: nat) {
    && t1.protocolFee <= t2.protocolFee && t1.fundFee <= t2.fundFee && t1.growth <= t2.growth
    && fee == (t2.protocolFee - t1.protocolFee) + (t2.fundFee - t1.fundFee) + forLiquidity
    && (liquidity > 0 ==> t2.lpFee == t1.lpFee + forLiquidity && t2.growth < U128_LIMIT)
    && (liquidity == 0 ==> t2.lpFee == t1.lpFee && t2.growth == t1.growth)
    && liquidity * (t2.growth - t1.growth) <= Q64 * (t2.lpFee - t1.lpFee)
  }

  /** The protocol's and the fund's shares never exceed the fee, so only an overflow can stop it. */
  lemma TakeSplits(config: AmmConfig, t: Takings, liquidity: nat, fee: nat) returns (forLiquidity: nat)
    requires ConfigInv(config)
    ensures var r := Take(config, t, liquidity, fee);
            (r.Err? ==> r.error == Overflow) && (r.Ok? ==> Split(t, r.value, liquidity, fee, forLiquidity))
  {
    SharesFit(fee, config.protocolFeeRate, config.fundFeeRate);
    forLiquidity := fee - ShareOf(fee, config.protocolFeeRate) - ShareOf(fee, config.fundFeeRate);
    if liquidity > 0 {
      MulDivFloorIs(forLiquidity, Q64, liquidity, U256_LIMIT, U128_LIMIT);
      var delta := MulDivFloor128(forLiquidity, Q64, liquidity);
      if delta.Ok? { assert liquidity * delta.value == delta.value * liquidity; }
    }
  }

  lemma ShareIsFloor(fee: nat, rate: nat)
    ensures IsFloor(ShareOf(fee, rate), fee * rate, FEE_RATE_DENOMINATOR)
  {
    FloorDivIs(fee * rate, FEE_RATE_DENOMINATOR);
  }

  /** Protocol and fund get their rates' shares rounded down, and the growth spreads the rest over the
      liquidity to within one unit of 2^-64 each. */
  lemma TakeIsExact(config: AmmConfig, t: Takings, liquidity: nat, fee: nat)
    requires ConfigInv(config) && Take(config, t, liquidity, fee).Ok?
    ensures var t2 := Take(config, t, liquidity, fee).value;
            var protocolShare, fundShare := t2.protocolFee - t.protocolFee, t2.fundFee - t.fundFee;
            && IsFloor(protocolShare, fee * config.protocolFeeRate, FEE_RATE_DENOMINATOR)
            && IsFloor(fundShare, fee * config.fundFeeRate, FEE_RATE_DENOMINATOR)
            && (liquidity > 0 ==> t2.lpFee - t.lpFee == fee - protocolShare - fundShare)
            && (liquidity > 0 ==> IsFloor(t2.growth - t.growth, (fee - protocolShare - fundShare) * Q64, liquidity))
  {
    hide FloorDiv, MulDivFloor, IsFloor;
    ShareIsFloor(fee, config.protocolFeeRate);
    ShareIsFloor(fee, config.fundFeeRate);
    SharesFit(fee, config.protocolFeeRate, config.fundFeeRate);
    MulDivFloorIs(fee - ShareOf(fee, config.protocolFeeRate) - ShareOf(fee, config.fundFeeRate), Q64, liquidity, U256_LIMIT, U128_LIMIT);
  }

  // -----------------------------------------------------------------------------------------
  // The price moves

  /** The vaults cover a move of the price that passes no initialized tick. */
  lemma PriceMoveKeepsVaults(l: Ledger, l': Ledger, x: int, y: int, zeroForOne: bool)
    requires ValidTable(l.table) && StructureInv(l) && VaultsInv(l) && ValidRanges(l')
    requires l'.table == l.table && l'.protocols == l.protocols && l'.personals == l.personals
    requires Towards(l.pool.sqrtPrice, l'.pool.sqrtPrice, zeroForOne) && NoTickBetween(l, l'.pool.sqrtPrice)
    requires CostsExactly(x, l.pool.sqrtPrice, l'.pool.sqrtPrice, l.pool.liquidity, zeroForOne)
    requires var gap := Gap(l.pool.sqrtPrice, l'.pool.sqrtPrice);
             if zeroForOne then y * Q64 <= l.pool.liquidity * gap
             else y * (l.pool.sqrtPrice * l'.pool.sqrtPrice) <= l.pool.liquidity * Q64 * gap
    requires var c := InToken(zeroForOne);
             Principal(l', c) >= Principal(l, c) + x && Principal(l', 1 - c) >= Principal(l, 1 - c) - y
    ensures VaultsInv(l')
  {
    hide StructureInv, NoTickBetween, CostsExactly, Backing, UnitShift, Principal;
    StepCoversShift(x, y, l.pool.sqrtPrice, l'.pool.sqrtPrice, l.pool.liquidity, zeroForOne);
    BackingShifts(l, l', 0);
    BackingShifts(l, l', 1);
  }

  /** A hop stops before it passes any initialized tick. */
  lemma HopPassesNoTick(s: Setting, l: Ledger, p: Path, hop: Hop)
    requires ValidSetting(s) && OnPath(s, p) && s.table == l.table && GoodHop(s, l.ticks, p, hop)
    requires p.tick == l.pool.tickCurrent && p.sqrtPrice == l.pool.sqrtPrice
    ensures NoTickBetween(l, hop.step.sqrtPriceNext)
  {
    hide StepGuarantee;
    NextTickIs(l.ticks, p.tick, s.zeroForOne);
    HopEndsBetween(s, l.ticks, p, hop);
    forall t | MIN_TICK <= t <= MAX_TICK && TickOf(l.ticks, t).IsInitialized()
      ensures if t <= p.tick then Price(l.table, t) <= p.sqrtPrice && Price(l.table, t) <= hop.step.sqrtPriceNext
              else p.sqrtPrice <= Price(l.table, t) && hop.step.sqrtPriceNext <= Price(l.table, t)
    {
      PriceIsMonotone(l.table, t, p.tick);
      PriceIsMonotone(l.table, t, p.tick + 1);
      PriceIsMonotone(l.table, t, hop.next);
    }
  }

  lemma HopEndsBetween(s: Setting, ticks: map<int, TickState>, p: Path, hop: Hop)
    requires ValidTable(s.table) && s.feeRate < FEE_RATE_DENOMINATOR && GoodHop(s, ticks, p, hop)
    ensures if s.zeroForOne then hop.priceNext <= hop.target <= hop.step.sqrtPriceNext <= p.sqrtPrice
            else p.sqrtPrice <= hop.step.sqrtPriceNext <= hop.target <= hop.priceNext
  {
    hide CostsExactly, Delivers, NextTick;
  }

  // -----------------------------------------------------------------------------------------
  // The current tick moves

  /** The current tick goes to `to`. With `sign` 0 it passes no initialized tick; with -1 or 1 it
      passes `x`, downwards or upwards, and no other. */
  ghost predicate Passes(l: Ledger, to: int, x: int, sign: int) {
    var from := l.pool.tickCurrent;
    && (sign == 0 || (sign == -1 && to < x <= from) || (sign == 1 && from < x <= to))
    && forall t {:trigger TickOf(l.ticks, t)} ::
         MIN_TICK <= t <= MAX_TICK && TickOf(l.ticks, t).IsInitialized() && (sign != 0 ==> t != x) ==> (t <= from <==> t <= to)
  }

  /** A tick on its other side. */
  ghost predicate IsMirrored(before: TickState, after: TickState, growth: Five) {
    && after == before.(growthOutside := after.growthOutside)
    && forall c :: 0 <= c < 5 ==> before.growthOutside[c] <= growth[c] && after.growthOutside[c] == growth[c] - before.growthOutside[c]
  }

  /** `l2` is `l1` with the current tick at `to`. */
  ghost predicate TickMoved(l1: Ledger, l2: Ledger, to: int, x: int, sign: int) {
    && Passes(l1, to, x, sign)
    && l2 == l1.(pool := l2.pool, ticks := l2.ticks)
    && l2.pool == l1.pool.(tickCurrent := to, liquidity := l2.pool.liquidity)
    && l2.pool.liquidity == l1.pool.liquidity + (if sign == 0 then 0 else if sign < 0 then -TickOf(l1.ticks, x).liquidityNet else TickOf(l1.ticks, x).liquidityNet)
    && (if sign == 0 then l2.ticks == l1.ticks
        else l2.ticks == l1.ticks[x := TickOf(l2.ticks, x)] && IsMirrored(TickOf(l1.ticks, x), TickOf(l2.ticks, x), l1.pool.growthGlobal))
  }

  /** Crossing a tick cannot fail, and mirrors its outside growth. */
  lemma CrossMirrors(l: Ledger, x: int)
    requires GrowthInv(l)
    ensures var r := CrossTick(TickOf(l.ticks, x), l.pool.growthGlobal, l.pool.rewards);
            r.Ok? && IsMirrored(TickOf(l.ticks, x), r.value, l.pool.growthGlobal)
  {
    CrossIs(TickOf(l.ticks, x), l.pool.growthGlobal, l.pool.rewards, 0);
    var outside := CrossFrom(TickOf(l.ticks, x), l.pool.growthGlobal, l.pool.rewards, 0);
    forall c | 0 <= c < 5 ensures outside.value[c] == l.pool.growthGlobal[c] - TickOf(l.ticks, x).growthOutside[c] {
      assert CrossChannel(TickOf(l.ticks, x), l.pool.growthGlobal, l.pool.rewards, c).Ok?;
      assert CrossChannel(TickOf(l.ticks, x), l.pool.growthGlobal, l.pool.rewards, c) == Ok(outside.value[c - 0]);
    }
  }

  /** One range's active liquidity changes by its net liquidity at the crossed tick. */
  lemma RangeCountedAcross(l: Ledger, j: nat, to: int, x: int, sign: int)
    requires ValidRanges(l) && LiquidityInv(l) && NamedSlots(l) && j < |l.protocols| && Passes(l, to, x, sign)
    ensures Counted(Active(to), l.protocols[j])
         == Counted(Active(l.pool.tickCurrent), l.protocols[j]) + sign * Counted(Net(x), l.protocols[j])
  {
    var p := l.protocols[j];
    if p.liquidity > 0 {
      LiveRangeIsInitialized(l, j);
      assert TickOf(l.ticks, p.tickLower).IsInitialized() && TickOf(l.ticks, p.tickUpper).IsInitialized();
    }
  }

  lemma TotalAcross(l: Ledger, to: int, x: int, sign: int)
    requires ValidRanges(l) && LiquidityInv(l) && NamedSlots(l) && Passes(l, to, x, sign)
    ensures Total(l.protocols, Active(to)) == Total(l.protocols, Active(l.pool.tickCurrent)) + sign * Total(l.protocols, Net(x))
  {
    forall j | 0 <= j < |l.protocols|
      ensures Counted(Active(to), l.protocols[j])
           == Counted(Active(l.pool.tickCurrent), l.protocols[j]) + sign * Counted(Net(x), l.protocols[j])
    {
      RangeCountedAcross(l, j, to, x, sign);
    }
    SumAddScaled(Terms(l.protocols, Active(l.pool.tickCurrent)), Terms(l.protocols, Active(to)), Terms(l.protocols, Net(x)), sign);
  }

  lemma TickMovedKeepsTotals(l1: Ledger, l2: Ledger, to: int, x: int, sign: int)
    requires ValidRanges(l1) && LiquidityInv(l1) && NamedSlots(l1) && TickMoved(l1, l2, to, x, sign)
    ensures LiquidityInv(l2)
  {
    TotalAcross(l1, to, x, sign);
    assert TickOf(l1.ticks, x).liquidityNet == Total(l1.protocols, Net(x));
    forall t
      ensures TickOf(l2.ticks, t).liquidityGross == Total(l2.protocols, Gross(t))
      ensures TickOf(l2.ticks, t).liquidityNet == Total(l2.protocols, Net(t))
    {
      assert TickOf(l1.ticks, t).liquidityGross == Total(l1.protocols, Gross(t));
      assert TickOf(l1.ticks, t).liquidityNet == Total(l1.protocols, Net(t));
    }
  }

  lemma TickMovedKeepsSlots(l1: Ledger, l2: Ledger, to: int, x: int, sign: int)
    requires ValidRanges(l1) && NamedSlots(l1) && GrowthInv(l1) && TickMoved(l1, l2, to, x, sign)
    ensures ValidRanges(l2) && NamedSlots(l2) && GrowthInv(l2)
  {
    forall t
      ensures var t1, t2 := TickOf(l1.ticks, t), TickOf(l2.ticks, t);
              t2 == t1.(growthOutside := t2.growthOutside) &&
              forall c :: 0 <= c < 5 ==> t2.growthOutside[c] <= l1.pool.growthGlobal[c]
    {
      if sign == 0 || t != x { assert TickOf(l2.ticks, t) == TickOf(l1.ticks, t); }
    }
  }

  /** The growth inside a live range does not notice. */
  lemma TickMovedKeepsGrowth(l1: Ledger, l2: Ledger, to: int, x: int, sign: int, j: nat, c: int)
    requires ValidRanges(l1) && LiquidityInv(l1) && NamedSlots(l1) && TickMoved(l1, l2, to, x, sign)
    requires j < |l1.protocols| && l1.protocols[j].liquidity > 0 && 0 <= c < 5
    ensures RangeGrowth(l2, l2.protocols[j], c) == RangeGrowth(l1, l1.protocols[j], c)
  {
    var p := l1.protocols[j];
    LiveRangeIsInitialized(l1, j);
    assert TickOf(l1.ticks, p.tickLower).IsInitialized() && TickOf(l1.ticks, p.tickUpper).IsInitialized();
    if sign != 0 {
      InsideSurvivesCrossing(l1.pool.growthGlobal[c], TickOf(l1.ticks, p.tickLower).growthOutside[c],
                             TickOf(l1.ticks, p.tickUpper).growthOutside[c], l1.pool.tickCurrent, to, x, p.tickLower, p.tickUpper);
    }
  }

  lemma TickMovedKeepsClaims(l1: Ledger, l2: Ledger, to: int, x: int, sign: int)
    requires ClaimsInv(l1) && TickMoved(l1, l2, to, x, sign)
    ensures ClaimsInv(l2)
  {
    TickMovedKeepsTotals(l1, l2, to, x, sign);
    TickMovedKeepsSlots(l1, l2, to, x, sign);
    forall i, c | 0 <= i < |l1.personals| && 0 <= c < 5 && l1.personals[i].liquidity > 0
      ensures Uncredited(l2, l1.personals[i], c) == Uncredited(l1, l1.personals[i], c)
    {
      HolderOfLiveRange(l1, i);
      TickMovedKeepsGrowth(l1, l2, to, x, sign, l1.personals[i].protocol, c);
    }
    SameEarningsSameClaims(l1, l2);
  }

  // -----------------------------------------------------------------------------------------
  // One turn of the loop

  /** After the price and the fees have moved, before the current tick does. */
  ghost function Repriced(s: Setting, l: Ledger, amount: nat, st: SwapState, st': SwapState): Ledger {
    var after := Midway(s, l, amount, st');
    after.(pool := after.pool.(tickCurrent := st.path.tick, liquidity := st.path.liquidity), ticks := st.ticks)
  }

  /** What one turn does to the state written back. */
  ghost predicate Turn(s: Setting, l: Ledger, st: SwapState, hop: Hop, st': SwapState, forLiquidity: nat) {
    && ValidTable(s.table) && s.feeRate < FEE_RATE_DENOMINATOR && GoodHop(s, st.ticks, st.path, hop)
    && Advance(s, st.ticks, st.path, hop) == Ok(st'.path)
    && Split(st.taken, st'.taken, st.path.liquidity, hop.step.feeAmount, forLiquidity)
    && (if hop.crossed then
          var crossed := CrossTick(TickOf(st.ticks, hop.next), l.pool.growthGlobal[InToken(s.zeroForOne) := st'.taken.growth], l.pool.rewards);
          crossed.Ok? && st'.ticks == st.ticks[hop.next := crossed.value]
        else st'.ticks == st.ticks)
  }

  lemma SwapOnceTurns(s: Setting, config: AmmConfig, l: Ledger, st: SwapState, st': SwapState)
    returns (hop: Hop, forLiquidity: nat)
    requires ValidSetting(s) && OnPath(s, st.path) && ConfigInv(config) && SwapOnce(s, config, l.pool, st) == Ok(st')
    ensures Turn(s, l, st, hop, st', forLiquidity)
  {
    hide HopFrom, Advance, Take, GoodHop, CrossTick, Split;
    hop := HopFrom(s, st.ticks, st.path).value;
    HopIsGood(s, st.ticks, st.path);
    forLiquidity := TakeSplits(config, st.taken, st.path.liquidity, hop.step.feeAmount);
  }

  /** The tokens a step moves. */
  lemma HopMovesTokens(s: Setting, ticks: map<int, TickState>, amount: nat, p: Path, hop: Hop, p': Path)
    requires Advance(s, ticks, p, hop) == Ok(p')
    ensures PaidIn(s, amount, p') == PaidIn(s, amount, p) + hop.step.amountIn + hop.step.feeAmount
    ensures PaidOut(s, amount, p') == PaidOut(s, amount, p) + hop.step.amountOut
    ensures p'.sqrtPrice == hop.step.sqrtPriceNext
  {
    hide TickAtSqrtPrice, CrossedLiquidity;
  }

  /** What a turn adds to the vaults beyond all fees. */
  lemma RepricedPrincipal(s: Setting, l: Ledger, amount: nat, st: SwapState, hop: Hop, st': SwapState, forLiquidity: nat)
    requires Turn(s, l, st, hop, st', forLiquidity)
    ensures var before, after, c := Midway(s, l, amount, st), Repriced(s, l, amount, st, st'), InToken(s.zeroForOne);
            Principal(after, c) >= Principal(before, c) + hop.step.amountIn &&
            Principal(after, 1 - c) == Principal(before, 1 - c) - hop.step.amountOut
  {
    hide GoodHop, Advance, CrossTick;
    HopMovesTokens(s, st.ticks, amount, st.path, hop, st'.path);
  }

  lemma RepricedKeepsClaims(s: Setting, l: Ledger, amount: nat, st: SwapState, st': SwapState)
    requires ClaimsInv(Midway(s, l, amount, st))
    requires exists fee, forLiquidity :: Split(st.taken, st'.taken, st.path.liquidity, fee, forLiquidity)
    ensures ClaimsInv(Repriced(s, l, amount, st, st'))
  {
    hide StructureInv, HoldingsInv, AccrualInv, ClaimsCovered;
    var before, after, c := Midway(s, l, amount, st), Repriced(s, l, amount, st, st'), InToken(s.zeroForOne);
    var fee, forLiquidity :| Split(st.taken, st'.taken, st.path.liquidity, fee, forLiquidity);
    var delta, income := st'.taken.growth - st.taken.growth, st'.taken.lpFee - st.taken.lpFee;
    assert before.pool.growthGlobal[c] == st.taken.growth;
    if delta > 0 || income > 0 {
      AccrueKeepsClaimsInv(before, c, delta, income);
      var accrued := Accrue(before, c, delta, income);
      assert accrued.pool.growthGlobal == after.pool.growthGlobal;
      assert accrued.pool.total == after.pool.total;
      ClaimsFrame(accrued, after);
    } else {
      assert before.pool.growthGlobal == after.pool.growthGlobal;
      assert before.pool.total == after.pool.total;
      ClaimsFrame(before, after);
    }
  }

  lemma RepricedKeepsVaults(s: Setting, l: Ledger, amount: nat, st: SwapState, hop: Hop, st': SwapState, forLiquidity: nat)
    requires ValidSetting(s) && s.table == l.table && OnPath(s, st.path) && Turn(s, l, st, hop, st', forLiquidity)
    requires ValidTable(l.table) && StructureInv(Midway(s, l, amount, st)) && VaultsInv(Midway(s, l, amount, st))
    ensures ValidRanges(Repriced(s, l, amount, st, st')) && VaultsInv(Repriced(s, l, amount, st, st'))
  {
    hide Backing, Principal, CostsExactly, Delivers, NextTick, CrossTick, LiquidityInv, NamedSlots, GrowthInv, NoTickBetween,
      Advance, Split;
    var before, after := Midway(s, l, amount, st), Repriced(s, l, amount, st, st');
    HopMovesTokens(s, st.ticks, amount, st.path, hop, st'.path);
    RepricedPrincipal(s, l, amount, st, hop, st', forLiquidity);
    HopPassesNoTick(s, before, st.path, hop);
    HopEndsBetween(s, st.ticks, st.path, hop);
    DeliversAtMost(hop.step, st.path.sqrtPrice, hop.target, st.path.liquidity, st.path.remaining, s.feeRate, s.baseInput, s.zeroForOne);
    PriceMoveKeepsVaults(before, after, hop.step.amountIn, hop.step.amountOut, s.zeroForOne);
  }

  /** Then the current tick follows the price. */
  lemma TurnMovesTick(s: Setting, l: Ledger, amount: nat, st: SwapState, hop: Hop, st': SwapState, forLiquidity: nat)
    returns (sign: int)
    requires ValidSetting(s) && OnPath(s, st.path) && Turn(s, l, st, hop, st', forLiquidity)
    requires GrowthInv(Repriced(s, l, amount, st, st'))
    ensures TickMoved(Repriced(s, l, amount, st, st'), Midway(s, l, amount, st'), st'.path.tick, hop.next, sign)
  {
    hide StepGuarantee, NextTick, TickAtSqrtPrice, CrossTick, Split, PaidIn, PaidOut, ValidTable;
    sign := if !hop.crossed then 0 else if s.zeroForOne then -1 else 1;
    NextTickIs(st.ticks, st.path.tick, s.zeroForOne);
    HopStaysOnPath(s, st.ticks, st.path, hop, st'.path);
    CrossMirrors(Repriced(s, l, amount, st, st'), hop.next);
  }

  lemma TickMovedKeepsTrade(l1: Ledger, l2: Ledger, to: int, x: int, sign: int)
    requires ClaimsInv(l1) && ValidTable(l1.table) && VaultsInv(l1) && TickMoved(l1, l2, to, x, sign)
    requires PriceInv(l2)
    ensures TradeInv(l2)
  {
    hide LiquidityInv, NamedSlots, GrowthInv, HoldingsInv, AccrualInv, ClaimsCovered, Passes, IsMirrored, VaultSolvent;
    TickMovedKeepsClaims(l1, l2, to, x, sign);
    VaultsFrame(l1, l2);
  }

  lemma OnPathIsPriceInv(s: Setting, l: Ledger, amount: nat, st: SwapState)
    requires s.table == l.table && OnPath(s, st.path)
    ensures PriceInv(Midway(s, l, amount, st))
  {}

  lemma TurnKeepsTrade(s: Setting, l: Ledger, amount: nat, st: SwapState, hop: Hop, st': SwapState, forLiquidity: nat)
    requires ValidSetting(s) && s.table == l.table && OnPath(s, st.path) && Turn(s, l, st, hop, st', forLiquidity)
    requires TradeInv(Midway(s, l, amount, st))
    ensures OnPath(s, st'.path) && TradeInv(Midway(s, l, amount, st'))
  {
    hide LiquidityInv, NamedSlots, HoldingsInv, AccrualInv, ClaimsCovered, GoodHop, Advance, CrossTick, Split, OnPath, PriceInv,
      VaultSolvent, Midway, Repriced;
    assert ValidTable(s.table) by { PathHasTable(s, st.path); }
    RepricedKeepsClaims(s, l, amount, st, st');
    RepricedKeepsVaults(s, l, amount, st, hop, st', forLiquidity);
    HopStaysOnPath(s, st.ticks, st.path, hop, st'.path);
    OnPathIsPriceInv(s, l, amount, st');
    var sign := TurnMovesTick(s, l, amount, st, hop, st', forLiquidity);
    assert Repriced(s, l, amount, st, st').table == l.table by { RepricedTable(s, l, amount, st, st'); }
    TickMovedKeepsTrade(Repriced(s, l, amount, st, st'), Midway(s, l, amount, st'), st'.path.tick, hop.next, sign);
  }

  lemma PathHasTable(s: Setting, p: Path)
    requires OnPath(s, p)
    ensures ValidTable(s.table)
  {}

  lemma RepricedTable(s: Setting, l: Ledger, amount: nat, st: SwapState, st': SwapState)
    ensures Repriced(s, l, amount, st, st').table == l.table
    ensures Midway(s, l, amount, st).table == l.table
  {}

  // -----------------------------------------------------------------------------------------
  // The loop and the instruction

  /** Every turn keeps the invariants, so all of them do. */
  lemma {:induction false} LoopKeepsTrade(s: Setting, l: Ledger, amount: nat, st: SwapState)
    requires ValidSetting(s) && s.table == l.table && s.feeRate == l.config.tradeFeeRate && ConfigInv(l.config)
    requires OnPath(s, st.path) && TradeInv(Midway(s, l, amount, st))
    ensures var r := SwapLoop(s, l.config, l.pool, st);
            r.Ok? ==> OnPath(s, r.value.path) && TradeInv(Midway(s, l, amount, r.value)) && Done(s, r.value.path)
    decreases Distance(s, st.path)
  {
    hide OnPath, ValidSetting, TradeInv, SwapOnce, Midway, Distance, Turn;
    if !Done(s, st.path) {
      var turn := SwapOnce(s, l.config, l.pool, st);
      if turn.Ok? {
        SwapOnceProgresses(s, l.config, l.pool, st, turn.value);
        var hop, forLiquidity := SwapOnceTurns(s, l.config, l, st, turn.value);
        TurnKeepsTrade(s, l, amount, st, hop, turn.value, forLiquidity);
        LoopKeepsTrade(s, l, amount, turn.value);
      }
    }
  }

  /** Before the first turn nothing has been written back. */
  lemma StartIsUnchanged(s: Setting, l: Ledger, amount: nat)
    ensures Midway(s, l, amount, Start(l.pool, l.ticks, amount, s.zeroForOne)) == l
  {
    var c := InToken(s.zeroForOne);
    var after := Midway(s, l, amount, Start(l.pool, l.ticks, amount, s.zeroForOne));
    assert after.pool.growthGlobal == l.pool.growthGlobal;
    assert after.pool.total == l.pool.total;
    assert after.pool.protocolFees == l.pool.protocolFees;
    assert after.pool.fundFees == l.pool.fundFees;
    assert after.vaults == l.vaults;
  }

  lemma SettleKeepsInv(s: Setting, l: Ledger, amount: nat, st: SwapState, threshold: nat, l': Ledger)
    requires TotalsFit(l.pool) && ConfigInv(l.config) && TradeInv(Midway(s, l, amount, st))
    requires Settle(s, l, amount, st, threshold) == Ok(l')
    ensures Inv(l')
  {
    hide ClaimsInv, PriceInv, VaultsInv;
    var after := Midway(s, l, amount, st);
    assert Inv(after);
    DecreaseSafety.SettingsFrame(after, after.config, l'.pool.disabled, after.rewardVaults);
  }

  /** A swap keeps every invariant of the pool. */
  lemma SwapKeepsInv(l: Ledger, amount: nat, threshold: nat, limit: nat, zeroForOne: bool, baseInput: bool, l': Ledger)
    requires Inv(l) && Swap(l, amount, threshold, limit, zeroForOne, baseInput) == Ok(l')
    ensures Inv(l')
  {
    hide SwapLoop, Settle, ClaimsInv, VaultsInv, TotalsFit, ConfigInv, UpdateRewardInfos, Start;
    var s := Setting(l.table, l.config.tradeFeeRate, LimitOrDefault(limit, zeroForOne), baseInput, zeroForOne);
    var timestamp := l.now % U32_LIMIT;
    WithRewardsKeepsInv(l, timestamp);
    var l1 := WithRewards(l, timestamp);
    StartsOnPath(s, l, l1.pool, amount);
    var st := Start(l1.pool, l.ticks, amount, zeroForOne);
    StartIsUnchanged(s, l1, amount);
    LoopKeepsTrade(s, l1, amount, st);
    SettleKeepsInv(s, l1, amount, SwapLoop(s, l.config, l1.pool, st).value, threshold, l');
  }
}
