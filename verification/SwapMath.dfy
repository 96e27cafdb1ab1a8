/** programs/amm/src/libraries/swap_math.rs: one swap step between two prices at constant
    liquidity. */
module SwapMath {
  import opened Wrappers
  import opened FullMath
  import opened LiquidityMath
  import opened SqrtPriceMath

  const FEE_RATE_DENOMINATOR: nat := 1_000_000

  datatype SwapStep = SwapStep(sqrtPriceNext: nat, amountIn: nat, amountOut: nat, feeAmount: nat)

  /** Input that moves the price from `from` to `to`, rounded up. */
  function AmountIn(from: nat, to: nat, liquidity: nat, zeroForOne: bool): Result<nat> {
    if zeroForOne then GetDeltaAmount0Unsigned(to, from, liquidity, true)
    else GetDeltaAmount1Unsigned(from, to, liquidity, true)
  }

  /** Output released by that move, rounded down. */
  function AmountOut(from: nat, to: nat, liquidity: nat, zeroForOne: bool): Result<nat> {
    if zeroForOne then GetDeltaAmount1Unsigned(to, from, liquidity, false)
    else GetDeltaAmount0Unsigned(from, to, liquidity, false)
  }

  /** Where the step ends, with the amount it computed on the way. */
  function PriceReached(current: nat, target: nat, liquidity: nat, remaining: nat, feeRate: nat,
                        baseInput: bool, zeroForOne: bool): Result<(nat, nat)> {
    if baseInput then
      var keep :- CheckedSub(FEE_RATE_DENOMINATOR, feeRate);
      var lessFee :- MulDivFloor64(remaining, keep, FEE_RATE_DENOMINATOR);
      var amountIn :- AmountIn(current, target, liquidity, zeroForOne);
      var next :- if lessFee >= amountIn then Ok(target)
                  else GetNextSqrtPriceFromInput(current, liquidity, lessFee, zeroForOne);
      Ok((next, amountIn))
    else
      var amountOut :- AmountOut(current, target, liquidity, zeroForOne);
      var next :- if remaining >= amountOut then Ok(target)
                  else GetNextSqrtPriceFromOutput(current, liquidity, remaining, zeroForOne);
      Ok((next, amountOut))
  }

  /** The fee: what is left of a base-input amount that missed the target, else a share of the input. */
  function StepFee(remaining: nat, amountIn: nat, missed: bool, feeRate: nat, baseInput: bool): Result<nat> {
    if baseInput && missed then CheckedSub(remaining, amountIn)
    else
      var keep :- CheckedSub(FEE_RATE_DENOMINATOR, feeRate);
      MulDivCeil64(amountIn, feeRate, keep)
  }

  /** `compute_swap_step` */
  function StepOf(current: nat, target: nat, liquidity: nat, remaining: nat, feeRate: nat,
                  baseInput: bool, zeroForOne: bool): Result<SwapStep> {
    var (next, known) :- PriceReached(current, target, liquidity, remaining, feeRate, baseInput, zeroForOne);
    var max := target == next;
    var amountIn :- if max && baseInput then Ok(known) else AmountIn(current, next, liquidity, zeroForOne);
    var amountOut :- if max && !baseInput then Ok(known) else AmountOut(current, next, liquidity, zeroForOne);
    var capped := if !baseInput && amountOut > remaining then remaining else amountOut;
    var fee :- StepFee(remaining, amountIn, next != target, feeRate, baseInput);
    Ok(SwapStep(next, amountIn, capped, fee))
  }

  /** The same step as the source writes it, filling the record field by field. */
  method ComputeSwapStep(current: nat, target: nat, liquidity: nat, remaining: nat, feeRate: nat,
                         baseInput: bool, zeroForOne: bool) returns (r: Result<SwapStep>)
    ensures r == StepOf(current, target, liquidity, remaining, feeRate, baseInput, zeroForOne)
  {
    var step := SwapStep(0, 0, 0, 0);
    if baseInput {
      var keep :- CheckedSub(FEE_RATE_DENOMINATOR, feeRate);
      var lessFee :- MulDivFloor64(remaining, keep, FEE_RATE_DENOMINATOR);
      var amountIn :- AmountIn(current, target, liquidity, zeroForOne);
      step := step.(amountIn := amountIn);
      if lessFee >= step.amountIn {
        step := step.(sqrtPriceNext := target);
      } else {
        var next :- GetNextSqrtPriceFromInput(current, liquidity, lessFee, zeroForOne);
        step := step.(sqrtPriceNext := next);
      }
    } else {
      var amountOut :- AmountOut(current, target, liquidity, zeroForOne);
      step := step.(amountOut := amountOut);
      if remaining >= step.amountOut {
        step := step.(sqrtPriceNext := target);
      } else {
        var next :- GetNextSqrtPriceFromOutput(current, liquidity, remaining, zeroForOne);
        step := step.(sqrtPriceNext := next);
      }
    }
    var max := target == step.sqrtPriceNext;
    if !(max && baseInput) {
      var amountIn :- AmountIn(current, step.sqrtPriceNext, liquidity, zeroForOne);
      step := step.(amountIn := amountIn);
    }
    if !(max && !baseInput) {
      var amountOut :- AmountOut(current, step.sqrtPriceNext, liquidity, zeroForOne);
      step := step.(amountOut := amountOut);
    }
    if !baseInput && step.amountOut > remaining {
      step := step.(amountOut := remaining);
    }
    var fee :- StepFee(remaining, step.amountIn, step.sqrtPriceNext != target, feeRate, baseInput);
    return Ok(step.(feeAmount := fee));
  }

  // -----------------------------------------------------------------------------------------
  // What a move between two prices costs and releases, as single roundings.

  predicate Towards(from: nat, to: nat, zeroForOne: bool) {
    0 < from && 0 < to && if zeroForOne then to <= from else from <= to
  }

  ghost function Gap(from: int, to: int): int {
    if from <= to then to - from else from - to
  }

  /** Input `x` covers exactly the rounded-up cost of the move. */
  ghost predicate CostsExactly(x: int, from: int, to: int, liquidity: int, zeroForOne: bool) {
    if zeroForOne then IsCeil(x, liquidity * Q64 * Gap(from, to), from * to)
    else IsCeil(x, liquidity * Gap(from, to), Q64)
  }

  /** Output `y` is exactly the rounded-down release of the move. */
  ghost predicate ReleasesExactly(y: int, from: int, to: int, liquidity: int, zeroForOne: bool) {
    if zeroForOne then IsFloor(y, liquidity * Gap(from, to), Q64)
    else IsFloor(y, liquidity * Q64 * Gap(from, to), from * to)
  }

  lemma AmountInCosts(from: nat, to: nat, liquidity: nat, zeroForOne: bool)
    requires Towards(from, to, zeroForOne)
    ensures var r := AmountIn(from, to, liquidity, zeroForOne);
            (r.Err? ==> r.error == Overflow) &&
            (r.Ok? ==> CostsExactly(r.value, from, to, liquidity, zeroForOne))
  {
    if zeroForOne { Amount0IsOneRounding(to, from, liquidity, true); }
    else { Amount1IsOneRounding(from, to, liquidity, true); }
  }

  lemma AmountOutReleases(from: nat, to: nat, liquidity: nat, zeroForOne: bool)
    requires Towards(from, to, zeroForOne)
    ensures var r := AmountOut(from, to, liquidity, zeroForOne);
            (r.Err? ==> r.error == Overflow) &&
            (r.Ok? ==> ReleasesExactly(r.value, from, to, liquidity, zeroForOne))
  {
    if zeroForOne {
      Amount1IsOneRounding(to, from, liquidity, false);
    } else {
      Amount0IsOneRounding(from, to, liquidity, false);
      assert to * from == from * to;
    }
  }

  // -----------------------------------------------------------------------------------------
  // The four next-price formulas. `x` is an input smaller than the full cost, `y` an output
  // smaller than the full release.

  lemma PriceIdentity(n: int, p: int, u: int, x: int)
    ensures n * (p - u) - x * (p * u) == n * p - u * (n + x * p)
  {
    assert u * (n + x * p) == n * u + x * (p * u);
  }

  /** Token 0 in: the price stops strictly short of the target and the input covers the move. */
  lemma NextFromInput0(p: nat, t: nat, n: nat, x: nat, q: nat, full: int)
    requires 0 < t <= p
    requires IsCeil(full, n * (p - t), p * t) && x < full
    requires x > 0 ==> IsCeil(q, n * p, n + x * p)
    requires x == 0 ==> q == p
    ensures t < q <= p
    ensures n * (p - q) <= x * (p * q)
  {
    CeilIsLeast(full, n * (p - t), p * t, x);
    PriceIdentity(n, p, t, x);
    PriceIdentity(n, p, q, x);
    PriceIdentity(n, p, p, x);
    if x > 0 {
      MulLtCancel(t, q, n + x * p);
      CeilIsLeast(q, n * p, n + x * p, p);
    } else {
      assert p != t;
    }
  }

  /** Token 1 in. */
  lemma NextFromInput1(p: nat, t: nat, l: nat, x: nat, q: nat, full: int)
    requires 0 < p <= t && 0 < l
    requires IsCeil(full, l * (t - p), Q64) && x < full
    requires q >= p && IsFloor(q - p, x * Q64, l)
    ensures p <= q < t
    ensures l * (q - p) <= x * Q64
  {
    CeilIsLeast(full, l * (t - p), Q64, x);
    assert (q - p) * l < (t - p) * l;
    MulLtCancel(q - p, t - p, l);
  }

  /** Token 1 out: the price may reach the target but not pass it, and releases `y`. */
  lemma NextFromOutput1(p: nat, t: nat, l: nat, y: nat, c: nat, full: int)
    requires 0 < t <= p && 0 < l
    requires IsFloor(full, l * (p - t), Q64) && y < full
    requires IsCeil(c, y * Q64, l)
    ensures t <= p - c <= p
    ensures y * Q64 <= l * c
  {
    FloorIsGreatest(full, l * (p - t), Q64, y);
    assert y * Q64 <= (p - t) * l;
    CeilIsLeast(c, y * Q64, l, p - t);
  }

  lemma PriceIdentityOut(n: int, p: int, u: int, y: int)
    ensures n * (u - p) - y * (p * u) == u * (n - y * p) - n * p
  {
    assert u * (n - y * p) == n * u - y * (p * u);
  }

  /** Token 0 out: the denominator stays positive, and the price may reach the target but not pass it. */
  lemma NextFromOutput0Denominator(p: nat, t: nat, n: nat, y: nat, full: int)
    requires 0 < p <= t
    requires IsFloor(full, n * (t - p), p * t) && y < full
    ensures y * p < n
    ensures n * p <= t * (n - y * p)
  {
    FloorIsGreatest(full, n * (t - p), p * t, y);
    PriceIdentityOut(n, p, t, y);
    if n <= y * p {
      MulLe(n - y * p, 0, t);
      if n == 0 {
        MulLt(0, full, p * t);
        assert false;
      }
      assert false;
    }
  }

  lemma NextFromOutput0(p: nat, t: nat, n: nat, y: nat, q: nat, full: int)
    requires 0 < p <= t
    requires IsFloor(full, n * (t - p), p * t) && y < full
    requires y > 0 ==> y * p < n && IsCeil(q, n * p, n - y * p)
    requires y == 0 ==> q == p
    ensures p <= q <= t
    ensures y * (p * q) <= n * (q - p)
  {
    NextFromOutput0Denominator(p, t, n, y, full);
    if y > 0 {
      var d := n - y * p;
      CeilIsLeast(q, n * p, d, t);
      PriceIdentityOut(n, p, q, y);
      assert d <= n;
      MulLe(d, n, p);
      MulLeCancel(p, q, d);
    }
  }

  // -----------------------------------------------------------------------------------------
  // Where the price stops, per mode.

  /** `b` lies on the way from `a` to `c`. */
  predicate OnTheWay(a: nat, b: nat, c: nat) {
    a <= b <= c || c <= b <= a
  }

  lemma CostAtMost(c: int, from: nat, to: nat, liquidity: nat, zeroForOne: bool, x: nat)
    requires Towards(from, to, zeroForOne) && CostsExactly(c, from, to, liquidity, zeroForOne)
    requires if zeroForOne then liquidity * Q64 * Gap(from, to) <= x * (from * to)
             else liquidity * Gap(from, to) <= x * Q64
    ensures c <= x
  {
    if zeroForOne { CeilIsLeast(c, liquidity * Q64 * Gap(from, to), from * to, x); }
    else { CeilIsLeast(c, liquidity * Gap(from, to), Q64, x); }
  }

  lemma ReleaseAtLeast(c: int, from: nat, to: nat, liquidity: nat, zeroForOne: bool, y: nat)
    requires Towards(from, to, zeroForOne) && ReleasesExactly(c, from, to, liquidity, zeroForOne)
    requires if zeroForOne then y * Q64 <= liquidity * Gap(from, to)
             else y * (from * to) <= liquidity * Q64 * Gap(from, to)
    ensures y <= c
  {
    if zeroForOne { FloorIsGreatest(c, liquidity * Gap(from, to), Q64, y); }
    else { FloorIsGreatest(c, liquidity * Q64 * Gap(from, to), from * to, y); }
  }

  /** What the four formulas compute, and that only a range test can stop them. */
  lemma NextFromInputIs(p: nat, l: nat, x: nat, zeroForOne: bool)
    requires 0 < p && 0 < l
    ensures var r := GetNextSqrtPriceFromInput(p, l, x, zeroForOne);
            (r.Err? ==> r.error == Overflow) &&
            (r.Ok? && zeroForOne ==> if x == 0 then r.value == p else IsCeil(r.value, l * Q64 * p, l * Q64 + x * p)) &&
            (r.Ok? && !zeroForOne ==> p <= r.value && IsFloor(r.value - p, x * Q64, l))
  {
    if zeroForOne { MulDivCeilIs(l * Q64, p, l * Q64 + x * p, U256_LIMIT, U128_LIMIT); }
    else { FloorDivIs(x * Q64, l); }
  }

  lemma NextFromOutputIs(p: nat, l: nat, y: nat, zeroForOne: bool)
    requires 0 < p && 0 < l
    ensures var r := GetNextSqrtPriceFromOutput(p, l, y, zeroForOne);
            if zeroForOne then
              var c := DivRoundingUp(y * Q64, l);
              IsCeil(c, y * Q64, l) && (r.Ok? ==> r.value == p - c) && (c <= p && r.Err? ==> r.error == Overflow)
            else if y == 0 then r == Ok(p)
            else (r.Ok? ==> y * p < l * Q64 && IsCeil(r.value, l * Q64 * p, l * Q64 - y * p)) &&
                 (r.Err? && y * p < l * Q64 ==> r.error == Overflow)
  {
    if zeroForOne { DivRoundingUpIs(y * Q64, l); }
    else if y * p <= l * Q64 { MulDivCeilIs(l * Q64, p, l * Q64 - y * p, U256_LIMIT, U128_LIMIT); }
  }

  /** An input too small for the target leaves the price strictly short of it, at a place whose
      rounded-up cost the input covers. */
  lemma InputStopsShort(current: nat, target: nat, liquidity: nat, x: nat, full: nat, zeroForOne: bool)
    requires Towards(current, target, zeroForOne)
    requires CostsExactly(full, current, target, liquidity, zeroForOne) && x < full
    ensures var r := GetNextSqrtPriceFromInput(current, liquidity, x, zeroForOne);
            (r.Err? ==> r.error == Overflow) &&
            (r.Ok? ==> OnTheWay(current, r.value, target) && r.value != target && 0 < r.value &&
                       forall c :: CostsExactly(c, current, r.value, liquidity, zeroForOne) ==> c <= x)
  {
    if liquidity == 0 {
      CostAtMost(full, current, target, liquidity, zeroForOne, 0);
    }
    NextFromInputIs(current, liquidity, x, zeroForOne);
    var r := GetNextSqrtPriceFromInput(current, liquidity, x, zeroForOne);
    if r.Ok? {
      if zeroForOne {
        NextFromInput0(current, target, liquidity * Q64, x, r.value, full);
      } else {
        NextFromInput1(current, target, liquidity, x, r.value, full);
      }
      forall c | CostsExactly(c, current, r.value, liquidity, zeroForOne) ensures c <= x {
        CostAtMost(c, current, r.value, liquidity, zeroForOne, x);
      }
    }
  }

  /** An output smaller than the full release moves the price no further than the target, to a
      place that releases at least that output. */
  lemma OutputStopsInRange(current: nat, target: nat, liquidity: nat, y: nat, full: nat, zeroForOne: bool)
    requires Towards(current, target, zeroForOne)
    requires ReleasesExactly(full, current, target, liquidity, zeroForOne) && y < full
    ensures var r := GetNextSqrtPriceFromOutput(current, liquidity, y, zeroForOne);
            (r.Err? ==> r.error == Overflow) &&
            (r.Ok? ==> OnTheWay(current, r.value, target) && 0 < r.value &&
                       forall c :: ReleasesExactly(c, current, r.value, liquidity, zeroForOne) ==> y <= c)
  {
    if liquidity == 0 {
      ReleaseAtLeast(0, current, target, liquidity, zeroForOne, full);
    }
    NextFromOutputIs(current, liquidity, y, zeroForOne);
    if zeroForOne {
      NextFromOutput1(current, target, liquidity, y, DivRoundingUp(y * Q64, liquidity), full);
    } else {
      NextFromOutput0Denominator(current, target, liquidity * Q64, y, full);
    }
    var r := GetNextSqrtPriceFromOutput(current, liquidity, y, zeroForOne);
    if r.Ok? {
      if !zeroForOne { NextFromOutput0(current, target, liquidity * Q64, y, r.value, full); }
      forall c | ReleasesExactly(c, current, r.value, liquidity, zeroForOne) ensures y <= c {
        ReleaseAtLeast(c, current, r.value, liquidity, zeroForOne, y);
      }
    }
  }

  // -----------------------------------------------------------------------------------------
  // The fee.

  /** Keeping (D - rate) / D of the amount for the move leaves enough for the fee on it. */
  lemma FeeFits(remaining: nat, lessFee: nat, amountIn: nat, rate: nat, fee: nat)
    requires rate < FEE_RATE_DENOMINATOR
    requires IsFloor(lessFee, remaining * (FEE_RATE_DENOMINATOR - rate), FEE_RATE_DENOMINATOR)
    requires amountIn <= lessFee
    requires IsCeil(fee, amountIn * rate, FEE_RATE_DENOMINATOR - rate)
    ensures amountIn + fee <= remaining
  {
    var keep := FEE_RATE_DENOMINATOR - rate;
    assert amountIn * FEE_RATE_DENOMINATOR <= remaining * keep;
    assert amountIn * FEE_RATE_DENOMINATOR == amountIn * rate + amountIn * keep;
    assert (remaining - amountIn) * keep == remaining * keep - amountIn * keep;
    CeilIsLeast(fee, amountIn * rate, keep, remaining - amountIn);
  }

  /** The fee of a base-input step, whether it reached the target or kept the dust. */
  lemma InputFee(remaining: nat, lessFee: nat, amountIn: nat, rate: nat, missed: bool, fee: nat)
    requires rate < FEE_RATE_DENOMINATOR
    requires IsFloor(lessFee, remaining * (FEE_RATE_DENOMINATOR - rate), FEE_RATE_DENOMINATOR)
    requires amountIn <= lessFee
    requires missed ==> fee == remaining - amountIn
    requires !missed ==> IsCeil(fee, amountIn * rate, FEE_RATE_DENOMINATOR - rate)
    ensures fee * (FEE_RATE_DENOMINATOR - rate) >= amountIn * rate
    ensures amountIn + fee <= remaining
  {
    if missed {
      var keep := FEE_RATE_DENOMINATOR - rate;
      assert amountIn * FEE_RATE_DENOMINATOR == amountIn * rate + amountIn * keep;
      assert (remaining - amountIn) * keep == remaining * keep - amountIn * keep;
    } else {
      FeeFits(remaining, lessFee, amountIn, rate, fee);
    }
  }

  lemma StepFeeIs(remaining: nat, amountIn: nat, missed: bool, rate: nat, baseInput: bool)
    requires rate < FEE_RATE_DENOMINATOR && (baseInput && missed ==> amountIn <= remaining)
    ensures var r := StepFee(remaining, amountIn, missed, rate, baseInput);
            (r.Err? ==> r.error == Overflow) &&
            (r.Ok? ==> if baseInput && missed then r.value == remaining - amountIn
                       else IsCeil(r.value, amountIn * rate, FEE_RATE_DENOMINATOR - rate))
  {
    MulDivCeilIs(amountIn, rate, FEE_RATE_DENOMINATOR - rate, U128_LIMIT, U64_LIMIT);
  }

  lemma LessFeeIsLess(remaining: nat, lessFee: nat, rate: nat)
    requires rate < FEE_RATE_DENOMINATOR
    requires IsFloor(lessFee, remaining * (FEE_RATE_DENOMINATOR - rate), FEE_RATE_DENOMINATOR)
    ensures lessFee <= remaining
  {
    MulLe(FEE_RATE_DENOMINATOR - rate, FEE_RATE_DENOMINATOR, remaining);
    MulLeCancel(lessFee, remaining, FEE_RATE_DENOMINATOR);
  }

  // -----------------------------------------------------------------------------------------
  // The step as a whole.

  /** Amount of the specified token the step uses up. */
  function Used(step: SwapStep, baseInput: bool): nat {
    if baseInput then step.amountIn + step.feeAmount else step.amountOut
  }

  /** The output is the rounded-down release of the move, capped by what is left to deliver. */
  ghost predicate Delivers(out: int, from: int, to: int, liquidity: int, remaining: int, baseInput: bool, zeroForOne: bool) {
    || ReleasesExactly(out, from, to, liquidity, zeroForOne)
    || (!baseInput && out == remaining
        && exists release :: remaining < release && ReleasesExactly(release, from, to, liquidity, zeroForOne))
  }

  /** What every step that returns guarantees, in all four modes. */
  ghost predicate StepGuarantee(step: SwapStep, current: nat, target: nat, liquidity: nat, remaining: nat,
                                feeRate: nat, baseInput: bool, zeroForOne: bool)
    requires feeRate < FEE_RATE_DENOMINATOR
  {
    && 0 < step.sqrtPriceNext
    && OnTheWay(current, step.sqrtPriceNext, target)
    && CostsExactly(step.amountIn, current, step.sqrtPriceNext, liquidity, zeroForOne)
    && Delivers(step.amountOut, current, step.sqrtPriceNext, liquidity, remaining, baseInput, zeroForOne)
    && step.feeAmount * (FEE_RATE_DENOMINATOR - feeRate) >= step.amountIn * feeRate
    && Used(step, baseInput) <= remaining
    && (step.sqrtPriceNext != target ==> Used(step, baseInput) == remaining)
  }

  /** The part of a base-input step that finds its price. */
  lemma InputReaches(current: nat, target: nat, liquidity: nat, remaining: nat, feeRate: nat, zeroForOne: bool)
    returns (lessFee: nat)
    requires Towards(current, target, zeroForOne) && feeRate < FEE_RATE_DENOMINATOR
    ensures var r := PriceReached(current, target, liquidity, remaining, feeRate, true, zeroForOne);
            (r.Err? ==> r.error == Overflow) &&
            (r.Ok? ==> var next := r.value.0;
                       && 0 < next && OnTheWay(current, next, target)
                       && CostsExactly(r.value.1, current, target, liquidity, zeroForOne)
                       && IsFloor(lessFee, remaining * (FEE_RATE_DENOMINATOR - feeRate), FEE_RATE_DENOMINATOR)
                       && (next == target <==> r.value.1 <= lessFee)
                       && forall c :: CostsExactly(c, current, next, liquidity, zeroForOne) && next != target ==> c <= lessFee)
  {
    var less := MulDivFloor64(remaining, FEE_RATE_DENOMINATOR - feeRate, FEE_RATE_DENOMINATOR);
    lessFee := if less.Ok? then less.value else 0;
    MulDivFloorIs(remaining, FEE_RATE_DENOMINATOR - feeRate, FEE_RATE_DENOMINATOR, U128_LIMIT, U64_LIMIT);
    AmountInCosts(current, target, liquidity, zeroForOne);
    var full := AmountIn(current, target, liquidity, zeroForOne);
    if less.Ok? && full.Ok? && lessFee < full.value {
      InputStopsShort(current, target, liquidity, lessFee, full.value, zeroForOne);
    }
  }

  lemma InputStepIsExact(current: nat, target: nat, liquidity: nat, remaining: nat, feeRate: nat, zeroForOne: bool)
    requires Towards(current, target, zeroForOne) && feeRate < FEE_RATE_DENOMINATOR
    ensures var r := StepOf(current, target, liquidity, remaining, feeRate, true, zeroForOne);
            (r.Err? ==> r.error == Overflow) &&
            (r.Ok? ==> StepGuarantee(r.value, current, target, liquidity, remaining, feeRate, true, zeroForOne))
  {
    var lessFee := InputReaches(current, target, liquidity, remaining, feeRate, zeroForOne);
    var reached := PriceReached(current, target, liquidity, remaining, feeRate, true, zeroForOne);
    if reached.Ok? {
      var (next, full) := reached.value;
      AmountInCosts(current, next, liquidity, zeroForOne);
      AmountOutReleases(current, next, liquidity, zeroForOne);
      LessFeeIsLess(remaining, lessFee, feeRate);
      var amountIn := if next == target then Ok(full) else AmountIn(current, next, liquidity, zeroForOne);
      if amountIn.Ok? {
        StepFeeIs(remaining, amountIn.value, next != target, feeRate, true);
        var fee := StepFee(remaining, amountIn.value, next != target, feeRate, true);
        if fee.Ok? { InputFee(remaining, lessFee, amountIn.value, feeRate, next != target, fee.value); }
      }
    }
  }

  lemma OutputStepIsExact(current: nat, target: nat, liquidity: nat, remaining: nat, feeRate: nat, zeroForOne: bool)
    requires Towards(current, target, zeroForOne) && feeRate < FEE_RATE_DENOMINATOR
    ensures var r := StepOf(current, target, liquidity, remaining, feeRate, false, zeroForOne);
            (r.Err? ==> r.error == Overflow) &&
            (r.Ok? ==> StepGuarantee(r.value, current, target, liquidity, remaining, feeRate, false, zeroForOne))
  {
    var full := AmountOut(current, target, liquidity, zeroForOne);
    AmountOutReleases(current, target, liquidity, zeroForOne);
    if full.Ok? {
      if remaining < full.value {
        OutputStopsInRange(current, target, liquidity, remaining, full.value, zeroForOne);
      }
      var reached := PriceReached(current, target, liquidity, remaining, feeRate, false, zeroForOne);
      if reached.Ok? {
        AmountInCosts(current, reached.value.0, liquidity, zeroForOne);
        AmountOutReleases(current, reached.value.0, liquidity, zeroForOne);
        var amountIn := AmountIn(current, reached.value.0, liquidity, zeroForOne);
        if amountIn.Ok? { StepFeeIs(remaining, amountIn.value, reached.value.0 != target, feeRate, false); }
      }
    }
  }

  /** Both kinds of step. */
  lemma StepIsExact(current: nat, target: nat, liquidity: nat, remaining: nat, feeRate: nat,
                    baseInput: bool, zeroForOne: bool)
    requires Towards(current, target, zeroForOne) && feeRate < FEE_RATE_DENOMINATOR
    ensures var r := StepOf(current, target, liquidity, remaining, feeRate, baseInput, zeroForOne);
            (r.Err? ==> r.error == Overflow) &&
            (r.Ok? ==> StepGuarantee(r.value, current, target, liquidity, remaining, feeRate, baseInput, zeroForOne))
  {
    if baseInput { InputStepIsExact(current, target, liquidity, remaining, feeRate, zeroForOne); }
    else { OutputStepIsExact(current, target, liquidity, remaining, feeRate, zeroForOne); }
  }

  // -----------------------------------------------------------------------------------------
  // How far a step goes when it misses its target.

  /** One unit beyond `to` costs more than `x`. */
  ghost predicate FurtherCostsMore(x: int, from: int, to: int, liquidity: int, zeroForOne: bool) {
    if zeroForOne then x * (from * (to - 1)) < liquidity * Q64 * (from - (to - 1))
    else x * Q64 < liquidity * (to + 1 - from)
  }

  /** One unit short of `to` releases less than `y`. */
  ghost predicate NearerReleasesLess(y: int, from: int, to: int, liquidity: int, zeroForOne: bool) {
    if zeroForOne then liquidity * (from - (to + 1)) < y * Q64
    else liquidity * Q64 * (to - 1 - from) < y * (from * (to - 1))
  }

  lemma InputGoesFurthest(p: nat, l: nat, x: nat, zeroForOne: bool)
    requires 0 < p && 0 < l && GetNextSqrtPriceFromInput(p, l, x, zeroForOne).Ok?
    ensures FurtherCostsMore(x, p, GetNextSqrtPriceFromInput(p, l, x, zeroForOne).value, l, zeroForOne)
  {
    var q := GetNextSqrtPriceFromInput(p, l, x, zeroForOne).value;
    NextFromInputIs(p, l, x, zeroForOne);
    if zeroForOne {
      var n, d := l * Q64, l * Q64 + x * p;
      PriceIdentity(n, p, q - 1, x);
      assert (q - 1) * d == q * d - d;
    } else {
      assert l * (q + 1 - p) == (q - p) * l + l;
    }
  }

  lemma NearerOutput0(p: nat, n: nat, y: nat, q: nat)
    requires 0 < p && 0 < n
    requires if y == 0 then q == p else y * p < n && IsCeil(q, n * p, n - y * p)
    ensures n * (q - 1 - p) < y * (p * (q - 1))
  {
    var d: int := n - y * p;
    PriceIdentityOut(n, p, q - 1, y);
    assert (q - 1) * d == q * d - d;
  }

  lemma NearerOutput1(p: nat, l: nat, y: nat, c: nat, q: int)
    requires IsCeil(c, y * Q64, l) && 0 < l && q == p - c
    ensures l * (p - (q + 1)) < y * Q64
  {
    assert l * (p - (q + 1)) == c * l - l;
  }

  lemma OutputGoesJustFarEnough(p: nat, l: nat, y: nat, zeroForOne: bool)
    requires 0 < p && 0 < l && GetNextSqrtPriceFromOutput(p, l, y, zeroForOne).Ok?
    ensures NearerReleasesLess(y, p, GetNextSqrtPriceFromOutput(p, l, y, zeroForOne).value, l, zeroForOne)
  {
    hide IsCeil, GetNextSqrtPriceFromOutput;
    var q := GetNextSqrtPriceFromOutput(p, l, y, zeroForOne).value;
    NextFromOutputIs(p, l, y, zeroForOne);
    if zeroForOne { NearerOutput1(p, l, y, DivRoundingUp(y * Q64, l), q); }
    else { NearerOutput0(p, l * Q64, y, q); }
  }

  /** A step that misses its target moves the price exactly as far as its amount demands: on base input
      to the last price the amount after the fee pays for, on base output to the first that releases the
      amount. A step's fee is the rounded-up share of its input, except that a base-input step which
      misses also keeps what is left over. */
  lemma StepIsTight(current: nat, target: nat, liquidity: nat, remaining: nat, feeRate: nat, baseInput: bool, zeroForOne: bool)
    returns (lessFee: nat)
    requires Towards(current, target, zeroForOne) && feeRate < FEE_RATE_DENOMINATOR
    requires StepOf(current, target, liquidity, remaining, feeRate, baseInput, zeroForOne).Ok?
    ensures var step := StepOf(current, target, liquidity, remaining, feeRate, baseInput, zeroForOne).value;
            && (baseInput ==> IsFloor(lessFee, remaining * (FEE_RATE_DENOMINATOR - feeRate), FEE_RATE_DENOMINATOR) && step.amountIn <= lessFee)
            && (step.sqrtPriceNext != target ==>
                  if baseInput then FurtherCostsMore(lessFee, current, step.sqrtPriceNext, liquidity, zeroForOne)
                  else NearerReleasesLess(remaining, current, step.sqrtPriceNext, liquidity, zeroForOne))
            && (if baseInput && step.sqrtPriceNext != target then step.feeAmount == remaining - step.amountIn
                else IsCeil(step.feeAmount, step.amountIn * feeRate, FEE_RATE_DENOMINATOR - feeRate))
  {
    hide GetNextSqrtPriceFromInput, GetNextSqrtPriceFromOutput, AmountIn, AmountOut, StepFee, FurtherCostsMore, NearerReleasesLess;
    lessFee := 0;
    var step := StepOf(current, target, liquidity, remaining, feeRate, baseInput, zeroForOne).value;
    AmountInCosts(current, target, liquidity, zeroForOne);
    if baseInput {
      MulDivFloorIs(remaining, FEE_RATE_DENOMINATOR - feeRate, FEE_RATE_DENOMINATOR, U128_LIMIT, U64_LIMIT);
      lessFee := MulDivFloor64(remaining, FEE_RATE_DENOMINATOR - feeRate, FEE_RATE_DENOMINATOR).value;
      LessFeeIsLess(remaining, lessFee, feeRate);
      if step.sqrtPriceNext != target {
        NextNeedsLiquidity(current, liquidity, lessFee, zeroForOne);
        InputStopsShort(current, target, liquidity, lessFee, AmountIn(current, target, liquidity, zeroForOne).value, zeroForOne);
        AmountInCosts(current, step.sqrtPriceNext, liquidity, zeroForOne);
        InputGoesFurthest(current, liquidity, lessFee, zeroForOne);
      } else if lessFee < AmountIn(current, target, liquidity, zeroForOne).value {
        InputStopsShort(current, target, liquidity, lessFee, AmountIn(current, target, liquidity, zeroForOne).value, zeroForOne);
      }
    } else if step.sqrtPriceNext != target {
      NextNeedsLiquidity(current, liquidity, remaining, zeroForOne);
      OutputGoesJustFarEnough(current, liquidity, remaining, zeroForOne);
    }
    StepFeeIs(remaining, step.amountIn, step.sqrtPriceNext != target, feeRate, baseInput);
  }

  lemma NextNeedsLiquidity(p: nat, l: nat, x: nat, zeroForOne: bool)
    ensures GetNextSqrtPriceFromInput(p, l, x, zeroForOne).Ok? ==> 0 < p && 0 < l
    ensures GetNextSqrtPriceFromOutput(p, l, x, zeroForOne).Ok? ==> 0 < p && 0 < l
  {}
}
