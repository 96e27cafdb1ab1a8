/** When a swap goes through: which figures have to fit their integers on its route, and that nothing else stops it. */
module SwapSuccess {
  import opened Wrappers
  import opened FullMath
  import opened LiquidityMath
  import opened SqrtPriceMath
  import opened PoolTypes
  import opened TickGrowth
  import opened Ledger
  import opened Invariants
  import opened PositionLemmas
  import opened Vaults
  import opened PositionSafety
  import opened SwapMath
  import opened SwapPath
  import opened SwapLedger
  import opened SwapSafety
  import opened SwapOutcome
  import opened SwapRoute
  import opened RewardOutcome

  // -----------------------------------------------------------------------------------------
  // Amounts

  /** The liquidity times the way from one price to the other. */
  function Span(from: nat, to: nat, liquidity: nat): nat {
    Times(liquidity, if from <= to then to - from else from - to)
  }

  lemma Exchange(x: int, y: int, z: int)
    ensures x * y * z == x * z * y
  {}

  lemma SpanIs(from: nat, to: nat, liquidity: nat)
    ensures var way := if from <= to then to - from else from - to;
            Span(from, to, liquidity) == liquidity * way && Span(from, to, liquidity) * Q64 == liquidity * Q64 * way
    ensures Times(from, to) == from * to
  {
    hide Times;
    var way := if from <= to then to - from else from - to;
    TimesIs(liquidity, way);
    TimesIs(from, to);
    Exchange(liquidity, way, Q64);
  }

  /** The input for a move is a u64, and what is worked out on the way fits 256 and 128 bits. */
  predicate CostFits(from: nat, to: nat, liquidity: nat, zeroForOne: bool) {
    var n := Span(from, to, liquidity);
    if zeroForOne then
      && n * Q64 + from - 1 < U256_LIMIT
      && n * Q64 <= (U128_LIMIT - 1) * from
      && n * Q64 <= (U64_LIMIT - 1) * Times(from, to)
    else
      n <= (U64_LIMIT - 1) * Q64
  }

  /** So is its output. */
  predicate ReleaseFits(from: nat, to: nat, liquidity: nat, zeroForOne: bool) {
    var n := Span(from, to, liquidity);
    if zeroForOne then
      n < U64_LIMIT * Q64
    else
      && n * Q64 < U256_LIMIT
      && n * Q64 < U128_LIMIT * to
      && n * Q64 < U64_LIMIT * Times(from, to)
  }

  lemma Amount0UpFits(a: nat, b: nat, liquidity: nat)
    requires 0 < a <= b
    ensures GetDeltaAmount0Unsigned(a, b, liquidity, true).Ok? <==> CostFits(b, a, liquidity, true)
  {
    hide MulDivCeil, DivRoundingUp, IsCeil, Times, Span;
    SpanIs(b, a, liquidity);
    var n := liquidity * Q64 * (b - a);
    MulDivCeilFits(liquidity * Q64, b - a, b, U256_LIMIT, U128_LIMIT);
    MulDivCeilIs(liquidity * Q64, b - a, b, U256_LIMIT, U128_LIMIT);
    var m := MulDivCeil256(liquidity * Q64, b - a, b);
    if m.Ok? {
      DivRoundingUpIs(m.value, a);
      NestedCeil(DivRoundingUp(m.value, a), m.value, n, b, a);
      assert b * a > 0 by { MulLt(0, b, a); }
      CeilIsLeast(DivRoundingUp(m.value, a), n, b * a, U64_LIMIT - 1);
    }
  }

  lemma Amount0DownFits(a: nat, b: nat, liquidity: nat)
    requires 0 < a <= b
    ensures GetDeltaAmount0Unsigned(a, b, liquidity, false).Ok? <==> ReleaseFits(a, b, liquidity, false)
  {
    hide MulDivFloor, FloorDiv, IsFloor, Times, Span;
    SpanIs(a, b, liquidity);
    var n := liquidity * Q64 * (b - a);
    MulDivFloorFits(liquidity * Q64, b - a, b, U256_LIMIT, U128_LIMIT);
    MulDivFloorIs(liquidity * Q64, b - a, b, U256_LIMIT, U128_LIMIT);
    var m := MulDivFloor256(liquidity * Q64, b - a, b);
    if m.Ok? {
      FloorDivIs(m.value, a);
      NestedFloor(FloorDiv(m.value, a), m.value, n, b, a);
      assert b * a > 0 by { MulLt(0, b, a); }
      FloorIsGreatest(FloorDiv(m.value, a), n, b * a, U64_LIMIT);
    }
  }

  lemma Amount1Fits(a: nat, b: nat, liquidity: nat)
    requires a <= b
    ensures GetDeltaAmount1Unsigned(a, b, liquidity, true).Ok? <==> CostFits(a, b, liquidity, false)
    ensures GetDeltaAmount1Unsigned(a, b, liquidity, false).Ok? <==> ReleaseFits(b, a, liquidity, true)
  {
    hide MulDivCeil, MulDivFloor, IsCeil, IsFloor, Times, Span;
    SpanIs(a, b, liquidity);
    SpanIs(b, a, liquidity);
    MulDivCeilFits(liquidity, b - a, Q64, U256_LIMIT, U128_LIMIT);
    MulDivCeilIs(liquidity, b - a, Q64, U256_LIMIT, U128_LIMIT);
    MulDivFloorFits(liquidity, b - a, Q64, U256_LIMIT, U128_LIMIT);
    MulDivFloorIs(liquidity, b - a, Q64, U256_LIMIT, U128_LIMIT);
    var up, down := MulDivCeil256(liquidity, b - a, Q64), MulDivFloor256(liquidity, b - a, Q64);
    if up.Ok? { CeilIsLeast(up.value, liquidity * (b - a), Q64, U64_LIMIT - 1); }
    if down.Ok? { FloorIsGreatest(down.value, liquidity * (b - a), Q64, U64_LIMIT); }
  }

  /** Exactly then. */
  lemma AmountsFit(from: nat, to: nat, liquidity: nat, zeroForOne: bool)
    requires Towards(from, to, zeroForOne)
    ensures AmountIn(from, to, liquidity, zeroForOne).Ok? <==> CostFits(from, to, liquidity, zeroForOne)
    ensures AmountOut(from, to, liquidity, zeroForOne).Ok? <==> ReleaseFits(from, to, liquidity, zeroForOne)
  {
    hide GetDeltaAmount0Unsigned, GetDeltaAmount1Unsigned, CostFits, ReleaseFits;
    if zeroForOne {
      Amount0UpFits(to, from, liquidity);
      Amount1Fits(to, from, liquidity);
    } else {
      Amount0DownFits(from, to, liquidity);
      Amount1Fits(from, to, liquidity);
    }
  }

  // -----------------------------------------------------------------------------------------
  // Part of the way

  lemma CostGrows(n: nat, m: nat, from: nat, via: nat, to: nat)
    requires 0 < to <= via <= from
    ensures n * (from - via) <= n * (from - to)
    ensures n * (from - to) <= m * (to * from) ==> n * (from - via) <= m * (via * from)
  {
    MulLe(from - via, from - to, n);
    MulLe(to, via, from);
    MulLe(to * from, via * from, m);
  }

  /** The share of a move in its end grows with the move. */
  lemma RatioGrows(n: nat, m: nat, from: nat, via: nat, to: nat)
    requires 0 < from <= via <= to && n * (to - from) < m * to
    ensures n * (via - from) < m * via
  {
    MulLe(via, to, from);
    MulLe(from * via, from * to, n);
    assert n * (via - from) * to == n * (via * to) - n * (from * to);
    assert n * (to - from) * via == n * (via * to) - n * (from * via);
    MulLt(n * (to - from), m * to, via);
    assert m * via * to == m * to * via;
    MulLtCancel(n * (via - from), m * via, to);
  }

  /** What fits for the whole way fits for part of it. */
  lemma CostFitsOnTheWay(from: nat, via: nat, to: nat, liquidity: nat, zeroForOne: bool)
    requires Towards(from, via, zeroForOne) && Towards(via, to, zeroForOne) && CostFits(from, to, liquidity, zeroForOne)
    ensures CostFits(from, via, liquidity, zeroForOne)
  {
    hide Times, Span;
    SpanIs(from, to, liquidity);
    SpanIs(from, via, liquidity);
    if zeroForOne { CostGrows(liquidity * Q64, U64_LIMIT - 1, from, via, to); }
    else { MulLe(via - from, to - from, liquidity); }
  }

  lemma ReleaseFitsOnTheWay(from: nat, via: nat, to: nat, liquidity: nat, zeroForOne: bool)
    requires Towards(from, via, zeroForOne) && Towards(via, to, zeroForOne) && ReleaseFits(from, to, liquidity, zeroForOne)
    ensures ReleaseFits(from, via, liquidity, zeroForOne)
  {
    hide Times, Span;
    SpanIs(from, to, liquidity);
    SpanIs(from, via, liquidity);
    if zeroForOne {
      MulLe(from - via, from - to, liquidity);
    } else {
      var n := liquidity * Q64;
      MulLe(via - from, to - from, n);
      RatioGrows(n, U128_LIMIT, from, via, to);
      Regroup(U64_LIMIT, to, from);
      Regroup(U64_LIMIT, via, from);
      var m := U64_LIMIT * from;
      RatioGrows(n, m, from, via, to);
    }
  }

  // -----------------------------------------------------------------------------------------
  // The price on the way

  /** The products in the formulas for the next price fit. */
  predicate PriceFits(price: nat, liquidity: nat) {
    Times(liquidity, price) * Q64 + liquidity * Q64 + U64_LIMIT * price < U256_LIMIT
  }

  lemma PriceFitsIs(price: nat, liquidity: nat)
    requires PriceFits(price, liquidity)
    ensures liquidity * Q64 * price + liquidity * Q64 + U64_LIMIT * price < U256_LIMIT
  {
    hide Times;
    TimesIs(liquidity, price);
    Exchange(liquidity, price, Q64);
  }

  lemma InputFindsPrice(current: nat, target: nat, liquidity: nat, x: nat, zeroForOne: bool)
    requires Towards(current, target, zeroForOne) && current < U128_LIMIT && target < U128_LIMIT && PriceFits(current, liquidity)
    requires AmountIn(current, target, liquidity, zeroForOne).Ok? && x < AmountIn(current, target, liquidity, zeroForOne).value && x < U64_LIMIT
    ensures GetNextSqrtPriceFromInput(current, liquidity, x, zeroForOne).Ok?
  {
    hide PriceFits, AmountIn, MulDivCeil, FloorDiv, IsCeil, IsFloor;
    PriceFitsIs(current, liquidity);
    var full := AmountIn(current, target, liquidity, zeroForOne).value;
    AmountInCosts(current, target, liquidity, zeroForOne);
    if liquidity == 0 { CostAtMost(full, current, target, 0, zeroForOne, 0); }
    var n := liquidity * Q64;
    if zeroForOne {
      var d := n + x * current;
      MulLe(x, U64_LIMIT, current);
      MulLe(current, U128_LIMIT - 1, n);
      MulLe(n, d, U128_LIMIT - 1);
      MulDivCeilFits(n, current, d, U256_LIMIT, U128_LIMIT);
    } else {
      FloorDivIs(x * Q64, liquidity);
      NextFromInput1(current, target, liquidity, x, current + FloorDiv(x * Q64, liquidity), full);
    }
  }

  lemma OutputFindsPrice(current: nat, target: nat, liquidity: nat, y: nat, zeroForOne: bool)
    requires Towards(current, target, zeroForOne) && current < U128_LIMIT && target < U128_LIMIT && PriceFits(current, liquidity)
    requires AmountOut(current, target, liquidity, zeroForOne).Ok? && y < AmountOut(current, target, liquidity, zeroForOne).value
    ensures GetNextSqrtPriceFromOutput(current, liquidity, y, zeroForOne).Ok?
  {
    hide PriceFits, AmountOut;
    PriceFitsIs(current, liquidity);
    var full := AmountOut(current, target, liquidity, zeroForOne).value;
    AmountOutReleases(current, target, liquidity, zeroForOne);
    if liquidity == 0 { ReleaseAtLeast(0, current, target, 0, zeroForOne, full); }
    var n := liquidity * Q64;
    if zeroForOne {
      DivRoundingUpIs(y * Q64, liquidity);
      NextFromOutput1(current, target, liquidity, y, DivRoundingUp(y * Q64, liquidity), full);
    } else {
      NextFromOutput0Denominator(current, target, n, y, full);
      var d := n - y * current;
      MulDivCeilFits(n, current, d, U256_LIMIT, U128_LIMIT);
      MulLe(target, U128_LIMIT - 1, d);
    }
  }

  // -----------------------------------------------------------------------------------------
  // One step

  /** An input that is a u64 with the fee on it. */
  function LargestInput(feeRate: nat): nat
    requires feeRate < FEE_RATE_DENOMINATOR
  {
    (U64_LIMIT - 1) * (1_000_000 - feeRate) / 1_000_000
  }

  /** The whole way to the target, and on base output the fee on it. */
  predicate WayFits(current: nat, target: nat, liquidity: nat, feeRate: nat, baseInput: bool, zeroForOne: bool)
    requires feeRate < FEE_RATE_DENOMINATOR
  {
    && PriceFits(current, liquidity)
    && CostFits(current, target, liquidity, zeroForOne)
    && ReleaseFits(current, target, liquidity, zeroForOne)
    && (baseInput || if zeroForOne then Span(current, target, liquidity) * Q64 <= Times(LargestInput(feeRate), Times(current, target))
                     else Span(current, target, liquidity) <= LargestInput(feeRate) * Q64)
  }

  lemma CostIsLargestAtMost(current: nat, target: nat, liquidity: nat, feeRate: nat, zeroForOne: bool, full: int)
    requires Towards(current, target, zeroForOne) && feeRate < FEE_RATE_DENOMINATOR && WayFits(current, target, liquidity, feeRate, false, zeroForOne)
    requires CostsExactly(full, current, target, liquidity, zeroForOne)
    ensures full <= LargestInput(feeRate)
  {
    hide Times, Span, CostFits, ReleaseFits, PriceFits, LargestInput;
    SpanIs(current, target, liquidity);
    TimesIs(LargestInput(feeRate), current * target);
    CostAtMost(full, current, target, liquidity, zeroForOne, LargestInput(feeRate));
  }

  /** Where it goes, if the whole way fits. */
  lemma PriceIsReached(current: nat, target: nat, liquidity: nat, remaining: nat, feeRate: nat, baseInput: bool, zeroForOne: bool)
    requires Towards(current, target, zeroForOne) && current < U128_LIMIT && target < U128_LIMIT
    requires feeRate < FEE_RATE_DENOMINATOR && remaining < U64_LIMIT && WayFits(current, target, liquidity, feeRate, baseInput, zeroForOne)
    ensures PriceReached(current, target, liquidity, remaining, feeRate, baseInput, zeroForOne).Ok?
  {
    hide GetNextSqrtPriceFromInput, GetNextSqrtPriceFromOutput, AmountIn, AmountOut, CostFits, ReleaseFits, PriceFits, MulDivFloor;
    AmountsFit(current, target, liquidity, zeroForOne);
    AmountInCosts(current, target, liquidity, zeroForOne);
    AmountOutReleases(current, target, liquidity, zeroForOne);
    var keep := FEE_RATE_DENOMINATOR - feeRate;
    MulDivFloorFits(remaining, keep, FEE_RATE_DENOMINATOR, U128_LIMIT, U64_LIMIT);
    MulDivFloorIs(remaining, keep, FEE_RATE_DENOMINATOR, U128_LIMIT, U64_LIMIT);
    MulLe(keep, FEE_RATE_DENOMINATOR, remaining);
    var less := MulDivFloor64(remaining, keep, FEE_RATE_DENOMINATOR).value;
    if baseInput {
      var full := AmountIn(current, target, liquidity, zeroForOne).value;
      if less < full { InputFindsPrice(current, target, liquidity, less, zeroForOne); }
    } else {
      var full := AmountOut(current, target, liquidity, zeroForOne).value;
      if remaining < full { OutputFindsPrice(current, target, liquidity, remaining, zeroForOne); }
    }
  }

  /** The fee on a cost that is no more than `full`. */
  lemma FeeOnCostFits(amountIn: nat, full: nat, feeRate: nat)
    requires feeRate < FEE_RATE_DENOMINATOR && amountIn <= full && full * 1_000_000 <= (U64_LIMIT - 1) * (1_000_000 - feeRate)
    ensures MulDivCeil64(amountIn, feeRate, FEE_RATE_DENOMINATOR - feeRate).Ok?
  {
    var keep := FEE_RATE_DENOMINATOR - feeRate;
    MulDivCeilFits(amountIn, feeRate, keep, U128_LIMIT, U64_LIMIT);
    MulLe(amountIn, full, feeRate);
    MulLe(feeRate, 1_000_000, full);
    MulLe(keep, 1_000_000, U64_LIMIT - 1);
  }

  /** On base input, the fee is within what remains. */
  lemma FeeOnInputFits(remaining: nat, lessFee: nat, amountIn: nat, feeRate: nat)
    requires feeRate < FEE_RATE_DENOMINATOR && remaining < U64_LIMIT && amountIn <= lessFee
    requires IsFloor(lessFee, remaining * (FEE_RATE_DENOMINATOR - feeRate), FEE_RATE_DENOMINATOR)
    ensures MulDivCeil64(amountIn, feeRate, FEE_RATE_DENOMINATOR - feeRate).Ok?
  {
    var keep := FEE_RATE_DENOMINATOR - feeRate;
    assert amountIn * 1_000_000 <= remaining * keep;
    MulLe(remaining, U64_LIMIT - 1, keep);
    FeeOnCostFits(amountIn, amountIn, feeRate);
  }

  lemma CostIsWithin(from: nat, via: nat, to: nat, liquidity: nat, zeroForOne: bool, cost: int, full: int)
    requires Towards(from, via, zeroForOne) && Towards(via, to, zeroForOne)
    requires CostsExactly(cost, from, via, liquidity, zeroForOne) && CostsExactly(full, from, to, liquidity, zeroForOne)
    ensures 0 <= full && cost <= full
  {
    if zeroForOne {
      assert 0 < from * to by { MulLt(0, from, to); }
      assert 0 < from * via by { MulLt(0, from, via); }
      CostGrows(liquidity * Q64, if full < 0 then 0 else full, from, via, to);
      CeilIsLeast(full, liquidity * Q64 * Gap(from, to), from * to, full);
      if full < 0 { MulLt(full, 0, from * to); MulLe(0, Gap(from, to), liquidity * Q64); }
      CeilIsLeast(cost, liquidity * Q64 * Gap(from, via), from * via, full);
    } else {
      MulLe(via - from, to - from, liquidity);
      MulLe(0, to - from, liquidity);
      CeilIsLeast(cost, liquidity * Gap(from, via), Q64, full);
    }
  }

  /** Where a step on base output stops. */
  lemma OutputReaches(current: nat, target: nat, liquidity: nat, remaining: nat, feeRate: nat, zeroForOne: bool)
    requires Towards(current, target, zeroForOne)
    requires PriceReached(current, target, liquidity, remaining, feeRate, false, zeroForOne).Ok?
    ensures var next := PriceReached(current, target, liquidity, remaining, feeRate, false, zeroForOne).value.0;
            0 < next && OnTheWay(current, next, target)
  {
    hide GetNextSqrtPriceFromOutput, AmountOut, ReleasesExactly;
    AmountOutReleases(current, target, liquidity, zeroForOne);
    var full := AmountOut(current, target, liquidity, zeroForOne).value;
    if remaining < full { OutputStopsInRange(current, target, liquidity, remaining, full, zeroForOne); }
  }

  /** A step whose whole way fits goes through. */
  lemma StepGoesThrough(current: nat, target: nat, liquidity: nat, remaining: nat, feeRate: nat, baseInput: bool, zeroForOne: bool)
    requires Towards(current, target, zeroForOne) && current < U128_LIMIT && target < U128_LIMIT
    requires feeRate < FEE_RATE_DENOMINATOR && remaining < U64_LIMIT && WayFits(current, target, liquidity, feeRate, baseInput, zeroForOne)
    ensures StepOf(current, target, liquidity, remaining, feeRate, baseInput, zeroForOne).Ok?
  {
    hide PriceReached, AmountIn, AmountOut, CostFits, ReleaseFits, PriceFits, Span, Times, CostsExactly, ReleasesExactly, IsFloor, MulDivCeil;
    PriceIsReached(current, target, liquidity, remaining, feeRate, baseInput, zeroForOne);
    var (next, known) := PriceReached(current, target, liquidity, remaining, feeRate, baseInput, zeroForOne).value;
    var lessFee := 0;
    if baseInput { lessFee := InputReaches(current, target, liquidity, remaining, feeRate, zeroForOne); }
    else { OutputReaches(current, target, liquidity, remaining, feeRate, zeroForOne); }
    CostFitsOnTheWay(current, next, target, liquidity, zeroForOne);
    ReleaseFitsOnTheWay(current, next, target, liquidity, zeroForOne);
    AmountsFit(current, next, liquidity, zeroForOne);
    AmountInCosts(current, next, liquidity, zeroForOne);
    AmountOutReleases(current, next, liquidity, zeroForOne);
    var amountIn := if target == next && baseInput then known else AmountIn(current, next, liquidity, zeroForOne).value;
    if baseInput {
      LessFeeIsLess(remaining, lessFee, feeRate);
      FeeOnInputFits(remaining, lessFee, amountIn, feeRate);
    } else {
      AmountsFit(current, target, liquidity, zeroForOne);
      AmountInCosts(current, target, liquidity, zeroForOne);
      var full := AmountIn(current, target, liquidity, zeroForOne).value;
      CostIsLargestAtMost(current, target, liquidity, feeRate, zeroForOne, full);
      CostIsWithin(current, next, target, liquidity, zeroForOne, amountIn, full);
      FeeOnCostFits(amountIn, full, feeRate);
    }
  }

  // -----------------------------------------------------------------------------------------
  // One turn

  /** The sums a step adds to, and the liquidity beyond the tick it arrives at. `growth` is the growth so far. */
  ghost predicate SumsFit(s: Setting, config: AmmConfig, ticks: map<int, TickState>, p: Path, next: int, step: SwapStep,
                          growth: nat)
    requires |s.table| == MAX_TICK - MIN_TICK + 1 && MIN_TICK <= next <= MAX_TICK
  {
    && p.calculated + (if s.baseInput then step.amountOut else step.amountIn + step.feeAmount) < U64_LIMIT
    && (p.liquidity > 0 ==> growth + Rest(step.feeAmount, config) * Q64 / p.liquidity < U128_LIMIT)
    && (step.sqrtPriceNext == Price(s.table, next) ==>
          var net := if s.zeroForOne then -TickOf(ticks, next).liquidityNet else TickOf(ticks, next).liquidityNet;
          0 - I128_LIMIT < net < I128_LIMIT && p.liquidity + net < U128_LIMIT)
  }

  /** From here the swap cannot go on: no initialized tick is ahead, or a figure on the way to the next one outgrows its
      integer. */
  ghost predicate Stuck(s: Setting, config: AmmConfig, ticks: map<int, TickState>, p: Path, growth: nat)
    requires |s.table| == MAX_TICK - MIN_TICK + 1 && s.feeRate < FEE_RATE_DENOMINATOR
  {
    || (forall next :: !IsNearest(ticks, p.tick, next, s.zeroForOne))
    || exists next :: IsNearest(ticks, p.tick, next, s.zeroForOne) && StuckBefore(s, config, ticks, p, next, growth)
  }

  ghost predicate StuckBefore(s: Setting, config: AmmConfig, ticks: map<int, TickState>, p: Path, next: int, growth: nat)
    requires |s.table| == MAX_TICK - MIN_TICK + 1 && s.feeRate < FEE_RATE_DENOMINATOR && MIN_TICK <= next <= MAX_TICK
  {
    var target := Aim(s, Price(s.table, next));
    || !WayFits(p.sqrtPrice, target, p.liquidity, s.feeRate, s.baseInput, s.zeroForOne)
    || exists step :: StepsTo(s, p, target, step) && !SumsFit(s, config, ticks, p, next, step, growth)
  }

  lemma HopGoesThrough(s: Setting, ticks: map<int, TickState>, p: Path)
    requires ValidSetting(s) && OnPath(s, p) && NextTick(ticks, p.tick, s.zeroForOne).Some? && p.remaining < U64_LIMIT
    requires var next := NextTick(ticks, p.tick, s.zeroForOne).value;
             MIN_TICK <= next <= MAX_TICK &&
             WayFits(p.sqrtPrice, Aim(s, Price(s.table, next)), p.liquidity, s.feeRate, s.baseInput, s.zeroForOne)
    ensures HopFrom(s, ticks, p).Ok?
  {
    hide StepOf, WayFits, NextTick;
    var next := NextTick(ticks, p.tick, s.zeroForOne).value;
    NextTickIs(ticks, p.tick, s.zeroForOne);
    PriceIsMonotone(s.table, p.tick, p.tick);
    PriceIsMonotone(s.table, p.tick, next);
    PriceIsMonotone(s.table, p.tick + 1, next);
    PriceIsMonotone(s.table, next, MAX_TICK);
    PriceIsMonotone(s.table, p.tick + 1, MAX_TICK);
    StepGoesThrough(p.sqrtPrice, Target(s, Price(s.table, next)), p.liquidity, p.remaining, s.feeRate, s.baseInput, s.zeroForOne);
  }

  /** Crossing leaves a liquidity that is not negative, so it is one that fits. */
  lemma CrossingGoesThrough(s: Setting, l: Ledger, p: Path, hop: Hop)
    requires ValidSetting(s) && OnPath(s, p) && s.table == l.table && GoodHop(s, l.ticks, p, hop)
    requires p.tick == l.pool.tickCurrent && p.liquidity == l.pool.liquidity && StructureInv(l)
    requires var net := if s.zeroForOne then -TickOf(l.ticks, hop.next).liquidityNet else TickOf(l.ticks, hop.next).liquidityNet;
             0 - I128_LIMIT < net < I128_LIMIT && p.liquidity + net < U128_LIMIT
    ensures CrossedLiquidity(p.liquidity, TickOf(l.ticks, hop.next).liquidityNet, s.zeroForOne).Ok?
  {
    hide StructureInv, GoodHop, OnPath;
    CrossingNeverUnderflows(s, l, p, hop);
  }

  lemma AdvanceGoesThrough(s: Setting, config: AmmConfig, l: Ledger, p: Path, hop: Hop, growth: nat)
    requires ValidSetting(s) && OnPath(s, p) && s.table == l.table && GoodHop(s, l.ticks, p, hop) && p.remaining < U64_LIMIT
    requires p.tick == l.pool.tickCurrent && p.liquidity == l.pool.liquidity && StructureInv(l)
    requires SumsFit(s, config, l.ticks, p, hop.next, hop.step, growth)
    ensures Advance(s, l.ticks, p, hop).Ok?
  {
    hide StructureInv, CrossedLiquidity, CostsExactly, Delivers, NextTick, TickAtSqrtPrice, Rest;
    if hop.crossed { CrossingGoesThrough(s, l, p, hop); }
    HopEndsBetween(s, l.ticks, p, hop);
    TickAtSqrtPriceIs(s.table, hop.step.sqrtPriceNext);
    PriceIsMonotone(s.table, p.tick, p.tick + 1);
  }

  lemma TakeGoesThrough(config: AmmConfig, t: Takings, liquidity: nat, fee: nat)
    requires ConfigInv(config) && Fees(t) + fee < U64_LIMIT
    requires liquidity > 0 ==> t.growth + Rest(fee, config) * Q64 / liquidity < U128_LIMIT
    ensures Take(config, t, liquidity, fee).Ok?
  {
    hide MulDivFloor, FloorDiv, IsFloor;
    SharesFit(fee, config.protocolFeeRate, config.fundFeeRate);
    ShareIsQuotient(fee, config.protocolFeeRate);
    ShareIsQuotient(fee, config.fundFeeRate);
    var rest := fee - ShareOf(fee, config.protocolFeeRate) - ShareOf(fee, config.fundFeeRate);
    if liquidity > 0 {
      MulDivFloorFits(rest, Q64, liquidity, U256_LIMIT, U128_LIMIT);
      MulDivFloorIs(rest, Q64, liquidity, U256_LIMIT, U128_LIMIT);
      MulLe(1, liquidity, U128_LIMIT);
      FloorIsQuotient(MulDivFloor128(rest, Q64, liquidity).value, rest * Q64, liquidity);
    }
  }

  lemma ShareIsQuotient(fee: nat, rate: nat)
    ensures ShareOf(fee, rate) == fee * rate / 1_000_000
  {
    hide ShareOf;
    ShareIsFloor(fee, rate);
    FloorIsQuotient(ShareOf(fee, rate), fee * rate, 1_000_000);
  }

  /** What the loop knows of its own sums: no more fees were taken than paid in, and no more paid in than a u64 holds. */
  ghost predicate WithinAmount(s: Setting, amount: nat, st: SwapState) {
    && amount < U64_LIMIT && st.path.remaining <= amount
    && Fees(st.taken) <= PaidIn(s, amount, st.path)
  }

  lemma FeeIsWithin(s: Setting, config: AmmConfig, l: Ledger, amount: nat, st: SwapState, hop: Hop)
    requires ValidSetting(s) && OnPath(s, st.path) && WithinAmount(s, amount, st) && GoodHop(s, st.ticks, st.path, hop)
    requires SumsFit(s, config, st.ticks, st.path, hop.next, hop.step, st.taken.growth)
    ensures Fees(st.taken) + hop.step.feeAmount < U64_LIMIT
  {
    hide CostsExactly, Delivers, NextTick, Rest;
    StepCostsSomething(hop.step, st.path, hop.target, s);
  }

  lemma StepCostsSomething(step: SwapStep, p: Path, target: nat, s: Setting)
    requires s.feeRate < FEE_RATE_DENOMINATOR
    requires StepGuarantee(step, p.sqrtPrice, target, p.liquidity, p.remaining, s.feeRate, s.baseInput, s.zeroForOne)
    ensures s.baseInput ==> step.amountIn + step.feeAmount <= p.remaining
  {}

  lemma NearestIs(ticks: map<int, TickState>, tick: int, zeroForOne: bool)
    requires MIN_TICK <= tick < MAX_TICK
    ensures var next := NextTick(ticks, tick, zeroForOne);
            if next.Some? then IsNearest(ticks, tick, next.value, zeroForOne) else forall u :: !IsNearest(ticks, tick, u, zeroForOne)
  {
    hide NextTick;
    NextTickIs(ticks, tick, zeroForOne);
  }

  /** A turn whose figures fit goes through. */
  lemma HopTurns(s: Setting, l: Ledger, amount: nat, st: SwapState, hop: Hop)
    requires ValidSetting(s) && OnPath(s, st.path) && ConfigInv(l.config) && s.table == l.table && TradeInv(Midway(s, l, amount, st))
    requires WithinAmount(s, amount, st) && HopFrom(s, st.ticks, st.path) == Ok(hop) && GoodHop(s, st.ticks, st.path, hop)
    requires SumsFit(s, l.config, st.ticks, st.path, hop.next, hop.step, st.taken.growth)
    ensures SwapOnce(s, l.config, l.pool, st).Ok?
  {
    hide PriceInv, VaultsInv, HoldingsInv, AccrualInv, ClaimsCovered, LiquidityInv, NamedSlots, ConfigInv,
      NextTick, HopFrom, Advance, Take, CrossTick, SumsFit, StepGuarantee, OnPath;
    AdvanceGoesThrough(s, l.config, Midway(s, l, amount, st), st.path, hop, st.taken.growth);
    FeeIsWithin(s, l.config, l, amount, st, hop);
    PathHasTable(s, st.path);
    GrowthFits(s, l.config, st.ticks, st.path, hop.next, hop.step, st.taken.growth);
    TakeGoesThrough(l.config, st.taken, st.path.liquidity, hop.step.feeAmount);
    var forLiquidity := TakeSplits(l.config, st.taken, st.path.liquidity, hop.step.feeAmount);
    GrownCrossesCleanly(s, l, amount, st, Take(l.config, st.taken, st.path.liquidity, hop.step.feeAmount).value, hop.next);
  }

  lemma GrowthFits(s: Setting, config: AmmConfig, ticks: map<int, TickState>, p: Path, next: int, step: SwapStep, growth: nat)
    requires |s.table| == MAX_TICK - MIN_TICK + 1 && MIN_TICK <= next <= MAX_TICK && SumsFit(s, config, ticks, p, next, step, growth)
    ensures p.liquidity > 0 ==> growth + Rest(step.feeAmount, config) * Q64 / p.liquidity < U128_LIMIT
  {
    hide Rest;
  }

  lemma SumsFitAlike(s: Setting, config: AmmConfig, ticks1: map<int, TickState>, ticks2: map<int, TickState>, p: Path,
                     next: int, step: SwapStep,
                     growth: nat)
    requires |s.table| == MAX_TICK - MIN_TICK + 1 && MIN_TICK <= next <= MAX_TICK && SamePath(ticks1, ticks2)
    ensures SumsFit(s, config, ticks1, p, next, step, growth) == SumsFit(s, config, ticks2, p, next, step, growth)
  {
    hide Rest;
  }

  /** So one that fails was stuck. */
  lemma TurnGoesThrough(s: Setting, l: Ledger, amount: nat, st: SwapState, ticks: map<int, TickState>)
    requires ValidSetting(s) && OnPath(s, st.path) && ConfigInv(l.config) && s.table == l.table && TradeInv(Midway(s, l, amount, st))
    requires WithinAmount(s, amount, st) && SamePath(st.ticks, ticks) && SwapOnce(s, l.config, l.pool, st).Err?
    ensures |s.table| == MAX_TICK - MIN_TICK + 1 && Stuck(s, l.config, ticks, st.path, st.taken.growth)
  {
    hide TradeInv, SwapOnce, NextTick, HopFrom, WayFits, StepsTo, SumsFit, IsNearest, StepGuarantee, Midway, SamePath, Fees, PaidIn;
    var p, zeroForOne := st.path, s.zeroForOne;
    NearestIs(st.ticks, p.tick, zeroForOne);
    NearestIs(ticks, p.tick, zeroForOne);
    SameNextTick(st.ticks, ticks, p.tick, zeroForOne);
    var next := NextTick(ticks, p.tick, zeroForOne);
    if next.Some? {
      assert MIN_TICK <= next.value <= MAX_TICK by { NearestIsTick(ticks, p.tick, next.value, zeroForOne); }
      assert StuckBefore(s, l.config, ticks, p, next.value, st.taken.growth) by {
        var target := Aim(s, Price(s.table, next.value));
        if WayFits(p.sqrtPrice, target, p.liquidity, s.feeRate, s.baseInput, zeroForOne) {
          HopGoesThrough(s, st.ticks, p);
          var hop := HopFrom(s, st.ticks, p).value;
          HopIsGood(s, st.ticks, p);
          HopSteps(s, p, hop, st.ticks);
          SumsFitAlike(s, l.config, st.ticks, ticks, p, hop.next, hop.step, st.taken.growth);
          if SumsFit(s, l.config, st.ticks, p, hop.next, hop.step, st.taken.growth) { HopTurns(s, l, amount, st, hop); }
          assert StepsTo(s, p, target, hop.step);
        }
      }
    }
  }

  lemma NearestIsTick(ticks: map<int, TickState>, tick: int, next: int, zeroForOne: bool)
    requires IsNearest(ticks, tick, next, zeroForOne)
    ensures MIN_TICK <= next <= MAX_TICK
  {}

  // -----------------------------------------------------------------------------------------
  // The loop and the instruction

  lemma TurnKeepsWithin(s: Setting, l: Ledger, amount: nat, st: SwapState, st': SwapState)
    requires ValidSetting(s) && OnPath(s, st.path) && ConfigInv(l.config) && SwapOnce(s, l.config, l.pool, st) == Ok(st')
    requires WithinAmount(s, amount, st)
    ensures WithinAmount(s, amount, st')
  {
    hide OnPath, ValidSetting, ConfigInv, Fees, PaidIn, SwapOnce, Route;
    TurnConservesInput(s, l.config, l, amount, st, st');
    TurnOnlyUsesUp(s, l.config, l.pool, st, st');
  }

  lemma TurnOnlyUsesUp(s: Setting, config: AmmConfig, pool: PoolState, st: SwapState, st': SwapState)
    requires SwapOnce(s, config, pool, st) == Ok(st')
    ensures st'.path.remaining <= st.path.remaining
  {
    hide HopFrom, Take, CrossTick, CrossedLiquidity, TickAtSqrtPrice;
  }

  /** A loop that fails has walked a route to a place where it is stuck. */
  lemma {:induction false} LoopGetsStuck(s: Setting, l: Ledger, amount: nat, st: SwapState, ticks: map<int, TickState>)
    returns (stops: seq<Path>, legs: seq<Leg>)
    requires ValidSetting(s) && s.table == l.table && s.feeRate == l.config.tradeFeeRate && ConfigInv(l.config)
    requires OnPath(s, st.path) && TradeInv(Midway(s, l, amount, st)) && WithinAmount(s, amount, st) && SamePath(st.ticks, ticks)
    requires SwapLoop(s, l.config, l.pool, st).Err?
    ensures |stops| == |legs| + 1 && Route(s, ticks, stops, legs) && stops[0] == st.path
    ensures stops[|legs|].remaining != 0 && stops[|legs|].sqrtPrice != s.limit
    ensures 0 <= st.taken.growth + GrowthSum(stops, legs, l.config) && |s.table| == MAX_TICK - MIN_TICK + 1
    ensures Stuck(s, l.config, ticks, stops[|legs|], st.taken.growth + GrowthSum(stops, legs, l.config))
    decreases Distance(s, st.path)
  {
    hide OnPath, ValidSetting, TradeInv, SwapOnce, Midway, Distance, Turn, Stuck, Leads, WithinAmount, SamePath, ConfigInv,
      HopFrom, Rest;
    PathHasTable(s, st.path);
    var turn := SwapOnce(s, l.config, l.pool, st);
    if turn.Err? {
      stops, legs := [st.path], [];
      TurnGoesThrough(s, l, amount, st, ticks);
    } else {
      var st' := turn.value;
      SwapOnceProgresses(s, l.config, l.pool, st, st');
      var hop, forLiquidity := SwapOnceTurns(s, l.config, l, st, st');
      TurnKeepsTrade(s, l, amount, st, hop, st', forLiquidity);
      TurnKeepsWithin(s, l, amount, st, st');
      TurnLeads(s, l.config, l.pool, st, st', ticks);
      TurnTakes(s, l.config, l.pool, st, st');
      var rest, left := LoopGetsStuck(s, l, amount, st', ticks);
      var step := HopFrom(s, st.ticks, st.path).value.step;
      var leg := Leg(HopFrom(s, st.ticks, st.path).value.next, step);
      RouteGrows(s, ticks, st.path, leg, rest, left);
      TakeAdds(l.config, st.taken, st.path.liquidity, step.feeAmount);
      stops, legs := [st.path] + rest, [leg] + left;
      assert stops[1..] == rest && legs[1..] == left;
    }
  }

  /** A route that ends properly but cannot be settled: nothing was traded, the caller's threshold was missed, or a fee
      figure of the pool outgrows 64 bits. */
  ghost predicate Refused(l: Ledger, amount: nat, threshold: nat, c: int, baseInput: bool, stops: seq<Path>, legs: seq<Leg>)
    requires 0 <= c < 2 && |stops| == |legs| + 1
  {
    var end := stops[|legs|];
    var paid, out := InOf(amount, end, baseInput), OutOf(amount, end, baseInput);
    || paid == 0 || out == 0 || end.sqrtPrice == l.pool.sqrtPrice
    || (if baseInput then out < threshold else threshold < paid)
    || U64_LIMIT <= l.pool.protocolFees[c] + ShareSum(legs, l.config.protocolFeeRate)
    || U64_LIMIT <= l.pool.fundFees[c] + ShareSum(legs, l.config.fundFeeRate)
    || U64_LIMIT <= l.pool.total[c] + RestSum(stops, legs, l.config)
  }

  /** What stands in the way of a swap. */
  ghost predicate Obstacle(l: Ledger, amount: nat, threshold: nat, limit: nat, zeroForOne: bool, baseInput: bool,
                           stops: seq<Path>, legs: seq<Leg>) {
    var s, c := SettingOf(l, limit, zeroForOne, baseInput), if zeroForOne then 0 else 1;
    && s.feeRate < FEE_RATE_DENOMINATOR && |s.table| == MAX_TICK - MIN_TICK + 1
    && Route(s, l.ticks, stops, legs)
    && stops[0] == Path(amount, 0, l.pool.sqrtPrice, l.pool.tickCurrent, l.pool.liquidity)
    && (if stops[|legs|].remaining == 0 || stops[|legs|].sqrtPrice == s.limit then Refused(l, amount, threshold, c, baseInput, stops, legs)
        else
          && 0 <= l.pool.growthGlobal[c] + GrowthSum(stops, legs, l.config)
          && Stuck(s, l.config, l.ticks, stops[|legs|], l.pool.growthGlobal[c] + GrowthSum(stops, legs, l.config)))
  }

  lemma SettleGoesThrough(s: Setting, l: Ledger, amount: nat, st: SwapState, threshold: nat, stops: seq<Path>, legs: seq<Leg>)
    requires TradeInv(Midway(s, l, amount, st)) && WithinAmount(s, amount, st)
    requires |stops| == |legs| + 1 && stops[|legs|] == st.path
    requires if s.zeroForOne then st.path.sqrtPrice <= l.pool.sqrtPrice else l.pool.sqrtPrice <= st.path.sqrtPrice
    requires FeesAdd(Takings(l.pool.growthGlobal[InToken(s.zeroForOne)], 0, 0, 0), st.taken, stops, legs, l.config)
    requires Settle(s, l, amount, st, threshold).Err?
    ensures Refused(l, amount, threshold, if s.zeroForOne then 0 else 1, s.baseInput, stops, legs)
  {
    hide TradeInv, ShareSum, RestSum, GrowthSum;
    VaultsCanPay(Midway(s, l, amount, st));
  }

  lemma LoopKeepsWithin(s: Setting, l: Ledger, amount: nat, st: SwapState, end: SwapState)
    requires ValidSetting(s) && OnPath(s, st.path) && ConfigInv(l.config) && SwapLoop(s, l.config, l.pool, st) == Ok(end)
    requires WithinAmount(s, amount, st)
    ensures WithinAmount(s, amount, end)
    decreases Distance(s, st.path)
  {
    hide OnPath, ValidSetting, ConfigInv, WithinAmount, SwapOnce, Distance;
    if !Done(s, st.path) {
      var st' := SwapOnce(s, l.config, l.pool, st).value;
      SwapOnceProgresses(s, l.config, l.pool, st, st');
      TurnKeepsWithin(s, l, amount, st, st');
      LoopKeepsWithin(s, l, amount, st', end);
    }
  }

  /** Rewards brought up to date leave the channels of the tokens, the price and the liquidity. */
  lemma TokensStand(pool: PoolState, timestamp: nat, c: int)
    requires UpdateRewardInfos(pool, timestamp).Ok? && 0 <= c < 2
    ensures var updated := UpdateRewardInfos(pool, timestamp).value;
            && updated == pool.(growthGlobal := updated.growthGlobal, total := updated.total, rewards := updated.rewards)
            && updated.growthGlobal[c] == pool.growthGlobal[c] && updated.total[c] == pool.total[c]
  {
    hide UpdateRewardInfos, RewardUpdated;
    InfosUpdate(pool, timestamp);
    var updated := UpdateRewardInfos(pool, timestamp).value;
    assert updated.growthGlobal[..2][c] == pool.growthGlobal[..2][c] && updated.total[..2][c] == pool.total[..2][c];
  }

  lemma StartIs(pool: PoolState, ticks: map<int, TickState>, amount: nat, zeroForOne: bool)
    ensures Start(pool, ticks, amount, zeroForOne)
         == SwapState(Path(amount, 0, pool.sqrtPrice, pool.tickCurrent, pool.liquidity),
                      Takings(pool.growthGlobal[if zeroForOne then 0 else 1], 0, 0, 0), ticks)
  {}

  /** The route of a swap that fails, once its rewards are up to date in `l1`. */
  lemma RouteMeetsObstacle(s: Setting, l1: Ledger, amount: nat, threshold: nat, st: SwapState) returns (stops: seq<Path>,
                           legs: seq<Leg>)
    requires Inv(l1) && ValidSetting(s) && s.table == l1.table && s.feeRate == l1.config.tradeFeeRate && OnPath(s, st.path)
    requires st == Start(l1.pool, l1.ticks, amount, s.zeroForOne) && amount < U64_LIMIT
    requires var r := SwapLoop(s, l1.config, l1.pool, st); r.Ok? ==> Settle(s, l1, amount, r.value, threshold).Err?
    ensures |stops| == |legs| + 1 && Route(s, l1.ticks, stops, legs) && stops[0] == st.path && |s.table| == MAX_TICK - MIN_TICK + 1
    ensures if stops[|legs|].remaining == 0 || stops[|legs|].sqrtPrice == s.limit then
              Refused(l1, amount, threshold, if s.zeroForOne then 0 else 1, s.baseInput, stops, legs)
            else
              && 0 <= st.taken.growth + GrowthSum(stops, legs, l1.config)
              && Stuck(s, l1.config, l1.ticks, stops[|legs|], st.taken.growth + GrowthSum(stops, legs, l1.config))
  {
    hide SwapLoop, Settle, ClaimsInv, PriceInv, VaultsInv, TotalsFit, ConfigInv, Route, Stuck, Refused, OnPath, ValidSetting,
      FeesAdd, GrowthSum, Start,
      TradeInv, SamePath, WithinAmount, Midway, Distance;
    StartIsUnchanged(s, l1, amount);
    assert TradeInv(l1) by { InvIsTrade(l1); }
    SameToItself(l1.ticks);
    NothingTakenYet(s, l1, amount);
    StartIs(l1.pool, l1.ticks, amount, s.zeroForOne);
    PathHasTable(s, st.path);
    var r := SwapLoop(s, l1.config, l1.pool, st);
    if r.Err? {
      stops, legs := LoopGetsStuck(s, l1, amount, st, l1.ticks);
    } else {
      stops, legs := LoopIsRoute(s, l1.config, l1.pool, st, r.value, l1.ticks);
      LoopKeepsTrade(s, l1, amount, st);
      LoopKeepsWithin(s, l1, amount, st, r.value);
      LoopOnlyUsesUp(s, l1.config, l1.pool, st, r.value);
      SettleGoesThrough(s, l1, amount, r.value, threshold, stops, legs);
    }
  }

  lemma InvIsTrade(l: Ledger)
    requires Inv(l)
    ensures TradeInv(l)
  {}

  /** A swap that fails was not allowed, met a reward that cannot be brought up to date, or walked a route that is stuck
      or that cannot be settled. Nothing else stops it. */
  lemma SwapMeetsObstacle(l: Ledger, amount: nat, threshold: nat, limit: nat, zeroForOne: bool, baseInput: bool)
    returns (stops: seq<Path>, legs: seq<Leg>)
    requires Inv(l) && amount < U64_LIMIT && Swap(l, amount, threshold, limit, zeroForOne, baseInput).Err?
    ensures || !MaySwap(l, amount, limit, zeroForOne)
            || (exists k :: 0 <= k < 3 && !RewardFits(l.pool, k, l.now % 0x1_0000_0000))
            || Obstacle(l, amount, threshold, limit, zeroForOne, baseInput, stops, legs)
  {
    hide SwapLoop, Settle, ClaimsInv, VaultsInv, TotalsFit, UpdateRewardInfos, Route, Stuck, RewardFits, Refused, OnPath,
      GrowthSum, Start;
    stops, legs := [], [];
    var s := SettingOf(l, limit, zeroForOne, baseInput);
    var timestamp := l.now % U32_LIMIT;
    InfosFit(l.pool, timestamp);
    if MaySwap(l, amount, limit, zeroForOne) && UpdateRewardInfos(l.pool, timestamp).Ok? {
      WithRewardsKeepsInv(l, timestamp);
      var c := if zeroForOne then 0 else 1;
      TokensStand(l.pool, timestamp, c);
      var l1 := WithRewards(l, timestamp);
      StartsOnPath(s, l, l1.pool, amount);
      StartIs(l1.pool, l.ticks, amount, zeroForOne);
      stops, legs := RouteMeetsObstacle(s, l1, amount, threshold, Start(l1.pool, l.ticks, amount, zeroForOne));
      if Refused(l1, amount, threshold, c, baseInput, stops, legs) { RefusedFrame(l, l1, amount, threshold, c, baseInput, stops, legs); }
    }
  }

  lemma NothingTakenYet(s: Setting, l: Ledger, amount: nat)
    requires amount < U64_LIMIT
    ensures WithinAmount(s, amount, Start(l.pool, l.ticks, amount, s.zeroForOne))
  {}

  /** Rewards play no part in it. */
  lemma RefusedFrame(l: Ledger, l': Ledger, amount: nat, threshold: nat, c: int, baseInput: bool, stops: seq<Path>, legs: seq<Leg>)
    requires 0 <= c < 2 && |stops| == |legs| + 1 && Refused(l', amount, threshold, c, baseInput, stops, legs)
    requires l'.config == l.config && l'.pool.sqrtPrice == l.pool.sqrtPrice && l'.pool.total[c] == l.pool.total[c]
    requires l'.pool.protocolFees == l.pool.protocolFees && l'.pool.fundFees == l.pool.fundFees
    ensures Refused(l, amount, threshold, c, baseInput, stops, legs)
  {}
}
