/** No step gives away value: what it releases is worth no more than what it takes, and trading
    back at the same liquidity returns no more than was paid. */
module SwapValue {
  import opened Wrappers
  import opened FullMath
  import opened LiquidityMath
  import opened SwapMath

  lemma NothingMovedCostsNothing(c: int, from: nat, to: nat, zeroForOne: bool)
    requires Towards(from, to, zeroForOne)
    ensures CostsExactly(c, from, to, 0, zeroForOne) ==> c == 0
    ensures ReleasesExactly(c, from, to, 0, zeroForOne) ==> c == 0
  {
    assert 0 < from * to;
  }

  /** Without liquidity the price jumps to the target, and nothing is taken, given or charged. */
  lemma ZeroLiquidityStepIsFree(current: nat, target: nat, remaining: nat, feeRate: nat, baseInput: bool, zeroForOne: bool)
    requires Towards(current, target, zeroForOne) && feeRate < FEE_RATE_DENOMINATOR
    ensures var r := StepOf(current, target, 0, remaining, feeRate, baseInput, zeroForOne);
            r.Ok? ==> r.value == SwapStep(target, 0, 0, 0)
  {
    AmountInCosts(current, target, 0, zeroForOne);
    AmountOutReleases(current, target, 0, zeroForOne);
    var x, y := AmountIn(current, target, 0, zeroForOne), AmountOut(current, target, 0, zeroForOne);
    if x.Ok? { NothingMovedCostsNothing(x.value, current, target, zeroForOne); }
    if y.Ok? { NothingMovedCostsNothing(y.value, current, target, zeroForOne); }
    StepFeeIs(remaining, 0, false, feeRate, baseInput);
    var fee := StepFee(remaining, 0, false, feeRate, baseInput);
    if fee.Ok? { CeilIsLeast(fee.value, 0 * feeRate, FEE_RATE_DENOMINATOR - feeRate, 0); }
  }

  /** Within the widths of prices and amounts such a step never fails. */
  lemma ZeroLiquidityStepSucceeds(current: nat, target: nat, remaining: nat, feeRate: nat, baseInput: bool, zeroForOne: bool)
    requires Towards(current, target, zeroForOne) && feeRate < FEE_RATE_DENOMINATOR
    requires current < U128_LIMIT && target < U128_LIMIT && remaining < U64_LIMIT
    ensures StepOf(current, target, 0, remaining, feeRate, baseInput, zeroForOne) == Ok(SwapStep(target, 0, 0, 0))
  {
    hide MulDivCeil, MulDivFloor, AmountIn, AmountOut;
    AmountInCosts(current, target, 0, zeroForOne);
    AmountOutReleases(current, target, 0, zeroForOne);
    NothingMovedIsFree(current, target, zeroForOne);
    NothingMovedCostsNothing(AmountIn(current, target, 0, zeroForOne).value, current, target, zeroForOne);
    NothingMovedCostsNothing(AmountOut(current, target, 0, zeroForOne).value, current, target, zeroForOne);
    var keep: nat := FEE_RATE_DENOMINATOR - feeRate;
    MulDivFloorFits(remaining, keep, FEE_RATE_DENOMINATOR, U128_LIMIT, U64_LIMIT);
    MulLe(remaining, U64_LIMIT - 1, keep);
    MulLe(keep, FEE_RATE_DENOMINATOR, remaining);
    MulLt(remaining, U64_LIMIT, FEE_RATE_DENOMINATOR);
    MulDivCeilFits(0, feeRate, keep, U128_LIMIT, U64_LIMIT);
    StepFeeIs(remaining, 0, false, feeRate, baseInput);
    CeilIsLeast(StepFee(remaining, 0, false, feeRate, baseInput).value, 0 * feeRate, keep, 0);
  }

  lemma NothingMovedIsFree(from: nat, to: nat, zeroForOne: bool)
    requires Towards(from, to, zeroForOne) && from < U128_LIMIT && to < U128_LIMIT
    ensures AmountIn(from, to, 0, zeroForOne).Ok? && AmountOut(from, to, 0, zeroForOne).Ok?
  {
    hide MulDivCeil, MulDivFloor, FloorDiv;
    var a, b := if zeroForOne then to else from, if zeroForOne then from else to;
    assert 0 * (b - a) == 0;
    MulDivCeilFits(0, b - a, b, U256_LIMIT, U128_LIMIT);
    MulDivFloorFits(0, b - a, b, U256_LIMIT, U128_LIMIT);
    MulDivCeilFits(0, b - a, Q64, U256_LIMIT, U128_LIMIT);
    MulDivFloorFits(0, b - a, Q64, U256_LIMIT, U128_LIMIT);
    MulDivCeilIs(0, b - a, b, U256_LIMIT, U128_LIMIT);
    MulDivFloorIs(0, b - a, b, U256_LIMIT, U128_LIMIT);
    MulDivCeilIs(0, b - a, Q64, U256_LIMIT, U128_LIMIT);
    MulDivFloorIs(0, b - a, Q64, U256_LIMIT, U128_LIMIT);
    CeilIsLeast(MulDivCeil256(0, b - a, b).value, 0, b, 0);
    FloorIsGreatest(MulDivFloor256(0, b - a, b).value, 0, b, 1);
    CeilIsLeast(MulDivCeil256(0, b - a, Q64).value, 0, Q64, 0);
    FloorIsGreatest(MulDivFloor256(0, b - a, Q64).value, 0, Q64, 1);
    DivRoundingUpIs(0, a);
    FloorDivIs(0, a);
    CeilIsLeast(DivRoundingUp(0, a), 0, a, 0);
    FloorIsGreatest(FloorDiv(0, a), 0, a, 1);
  }

  /** Token 1 counted in token 0 at the geometric mean price of the move never exceeds the input. */
  lemma NoFreeValue(x: int, y: int, from: nat, to: nat, liquidity: nat, zeroForOne: bool)
    requires Towards(from, to, zeroForOne)
    requires CostsExactly(x, from, to, liquidity, zeroForOne)
    requires exists release :: y <= release && ReleasesExactly(release, from, to, liquidity, zeroForOne)
    ensures zeroForOne ==> y * Q64 * Q64 <= x * (from * to)
    ensures !zeroForOne ==> y * (from * to) <= x * Q64 * Q64
  {
    var release :| y <= release && ReleasesExactly(release, from, to, liquidity, zeroForOne);
    if !zeroForOne {
      MulLe(y, release, from * to);
    }
  }

  lemma MulAssoc(a: int, b: int, c: int)
    ensures (a * b) * c == a * (b * c)
  {}

  lemma CrossBound(s: int, n: int, u: int, v: int, t: int, p: int, r: int)
    requires s <= n * u && n * v <= t && u * p <= v * r
    requires 0 <= n && 0 <= p && 0 <= r
    ensures s * p <= t * r
  {
    MulLe(s, n * u, p);
    MulAssoc(n, u, p);
    MulLe(u * p, v * r, n);
    MulAssoc(n, v, r);
    MulLe(n * v, t, r);
  }

  /** `a / (q * r) <= b / (p * q)` with both sides multiplied out. */
  lemma CancelPrices(a: int, b: int, p: nat, q: nat, r: nat)
    requires 0 < p && 0 < q && 0 < r
    requires (a * (q * r)) * p <= (b * (p * q)) * r
    ensures a <= b
  {
    MulAssoc(a, q * r, p);
    MulAssoc(b, p * q, r);
    assert (p * q) * r == (q * r) * p;
    MulLeCancel(a, b, (q * r) * p);
  }

  /** Selling token 0 from `p` down to `q` and buying back: the price does not pass `p` again and
      the token 0 returned is at most the token 0 paid. */
  lemma DownAndBack(p: nat, q: nat, r: nat, liquidity: nat, x: int, y: int, x': int, y': int)
    requires 0 < q <= p && q <= r && 0 < liquidity
    requires CostsExactly(x, p, q, liquidity, true) && y * Q64 <= liquidity * (p - q)
    requires CostsExactly(x', q, r, liquidity, false) && y' * (q * r) <= liquidity * Q64 * (r - q)
    requires x' <= y
    ensures r <= p && y' <= x
  {
    MulLeCancel(r - q, p - q, liquidity);
    MulLe(r, p, q);
    assert (r - q) * p <= (p - q) * r;
    CrossBound(y' * (q * r), liquidity * Q64, r - q, p - q, x * (p * q), p, r);
    CancelPrices(y', x, p, q, r);
  }

  /** Going below `p` again would cost more token 0 than the way up released. */
  lemma BelowStartCostsMore(p: nat, q: nat, r: nat, n: nat, y: int, x': int)
    requires 0 < r < p <= q && 0 < n
    requires y * (p * q) <= n * (q - p) && n * (q - r) <= x' * (q * r)
    ensures y < x'
  {
    MulLt(r, p, q);
    assert (q - p) * r == q * r - p * r && (q - r) * p == q * p - p * r;
    StrictCrossBound(y * (p * q), n, q - p, q - r, x' * (q * r), r, p);
    CancelPricesStrict(y, x', p, q, r);
  }

  /** The mirror image, paying token 1 first. */
  lemma UpAndBack(p: nat, q: nat, r: nat, liquidity: nat, x: int, y: int, x': int, y': int)
    requires 0 < p <= q && 0 < r <= q && 0 < liquidity
    requires CostsExactly(x, p, q, liquidity, false) && y * (p * q) <= liquidity * Q64 * (q - p)
    requires CostsExactly(x', q, r, liquidity, true) && y' * Q64 <= liquidity * (q - r)
    requires x' <= y
    ensures p <= r && y' <= x
  {
    if r < p { BelowStartCostsMore(p, q, r, liquidity * Q64, y, x'); }
    MulLe(q - r, q - p, liquidity);
    MulLeCancel(y', x, Q64);
  }

  lemma StrictCrossBound(s: int, n: int, u: int, v: int, t: int, p: int, r: int)
    requires s <= n * u && n * v <= t && u * p < v * r
    requires 0 < n && 0 <= p && 0 <= r
    ensures s * p < t * r
  {
    MulLe(s, n * u, p);
    MulAssoc(n, u, p);
    MulLt(u * p, v * r, n);
    MulAssoc(n, v, r);
    MulLe(n * v, t, r);
  }

  lemma CancelPricesStrict(a: int, b: int, p: nat, q: nat, r: nat)
    requires 0 < p && 0 < q && 0 < r
    requires (a * (p * q)) * r < (b * (q * r)) * p
    ensures a < b
  {
    MulAssoc(a, p * q, r);
    MulAssoc(b, q * r, p);
    assert (p * q) * r == (q * r) * p;
    MulLtCancel(a, b, (q * r) * p);
  }

  /** Two steps of the program itself: trade from `p` to the price the first step reaches, then
      trade at most its output straight back, at the same liquidity. */
  lemma RoundTripNeverGains(p: nat, target: nat, back: nat, liquidity: nat, feeRate: nat, amount: nat, baseInput: bool,
                            amount': nat, baseInput': bool, zeroForOne: bool, there: SwapStep, home: SwapStep)
    requires Towards(p, target, zeroForOne) && feeRate < FEE_RATE_DENOMINATOR
    requires StepOf(p, target, liquidity, amount, feeRate, baseInput, zeroForOne) == Ok(there)
    requires Towards(there.sqrtPriceNext, back, !zeroForOne)
    requires StepOf(there.sqrtPriceNext, back, liquidity, amount', feeRate, baseInput', !zeroForOne) == Ok(home)
    requires home.amountIn + home.feeAmount <= there.amountOut
    ensures home.amountOut <= there.amountIn
    ensures 0 < liquidity ==> if zeroForOne then home.sqrtPriceNext <= p else p <= home.sqrtPriceNext
  {
    StepIsExact(p, target, liquidity, amount, feeRate, baseInput, zeroForOne);
    StepIsExact(there.sqrtPriceNext, back, liquidity, amount', feeRate, baseInput', !zeroForOne);
    if liquidity == 0 {
      ZeroLiquidityStepIsFree(there.sqrtPriceNext, back, amount', feeRate, baseInput', !zeroForOne);
    } else {
      GuaranteedRoundTrip(p, target, back, liquidity, feeRate, amount, baseInput, amount', baseInput', zeroForOne, there, home);
    }
  }

  lemma GuaranteedRoundTrip(p: nat, target: nat, back: nat, liquidity: nat, feeRate: nat, amount: nat, baseInput: bool,
                            amount': nat, baseInput': bool, zeroForOne: bool, there: SwapStep, home: SwapStep)
    requires Towards(p, target, zeroForOne) && feeRate < FEE_RATE_DENOMINATOR && 0 < liquidity
    requires StepGuarantee(there, p, target, liquidity, amount, feeRate, baseInput, zeroForOne)
    requires Towards(there.sqrtPriceNext, back, !zeroForOne)
    requires StepGuarantee(home, there.sqrtPriceNext, back, liquidity, amount', feeRate, baseInput', !zeroForOne)
    requires home.amountIn + home.feeAmount <= there.amountOut
    ensures home.amountOut <= there.amountIn
    ensures if zeroForOne then home.sqrtPriceNext <= p else p <= home.sqrtPriceNext
  {
    var q := there.sqrtPriceNext;
    DeliversAtMost(there, p, target, liquidity, amount, feeRate, baseInput, zeroForOne);
    DeliversAtMost(home, q, back, liquidity, amount', feeRate, baseInput', !zeroForOne);
    if zeroForOne {
      DownAndBack(p, q, home.sqrtPriceNext, liquidity, there.amountIn, there.amountOut, home.amountIn, home.amountOut);
    } else {
      UpAndBack(p, q, home.sqrtPriceNext, liquidity, there.amountIn, there.amountOut, home.amountIn, home.amountOut);
    }
  }

  /** The released amount against the exact curve, without rounding. */
  lemma DeliversAtMost(step: SwapStep, current: nat, target: nat, liquidity: nat, remaining: nat,
                       feeRate: nat, baseInput: bool, zeroForOne: bool)
    requires Towards(current, target, zeroForOne) && feeRate < FEE_RATE_DENOMINATOR
    requires StepGuarantee(step, current, target, liquidity, remaining, feeRate, baseInput, zeroForOne)
    ensures var gap := Gap(current, step.sqrtPriceNext);
            if zeroForOne then step.amountOut * Q64 <= liquidity * gap
            else step.amountOut * (current * step.sqrtPriceNext) <= liquidity * Q64 * gap
  {
    var next := step.sqrtPriceNext;
    if !ReleasesExactly(step.amountOut, current, next, liquidity, zeroForOne) {
      var release :| remaining < release && ReleasesExactly(release, current, next, liquidity, zeroForOne);
      MulLe(step.amountOut, release, if zeroForOne then Q64 else current * next);
    }
  }
}
