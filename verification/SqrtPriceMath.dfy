/** programs/amm/src/libraries/sqrt_price_math.rs: the next sqrt price after an amount moves in
    or out, rounded towards the current price on input and past it on output. */
module SqrtPriceMath {
  import opened Wrappers
  import opened FullMath

  /** `get_next_sqrt_price_from_amount_0_rounding_up`. A u64 amount times a u128 price always
      fits 256 bits, so the source's fallback for an overflowing product is never taken. */
  function GetNextSqrtPriceFromAmount0RoundingUp(sqrtPrice: nat, liquidity: nat, amount: nat, add: bool): Result<nat> {
    if amount == 0 then Ok(sqrtPrice)
    else
      var numerator1 := liquidity * Q64;
      var product := amount * sqrtPrice;
      if add then
        MulDivCeil256(numerator1, sqrtPrice, numerator1 + product)
      else
        var denominator :- CheckedSub(numerator1, product);
        MulDivCeil256(numerator1, sqrtPrice, denominator)
  }

  /** `get_next_sqrt_price_from_amount_1_rounding_down` */
  function GetNextSqrtPriceFromAmount1RoundingDown(sqrtPrice: nat, liquidity: nat, amount: nat, add: bool): Result<nat> {
    if liquidity == 0 then Err(ZeroDenominator)
    else if add then
      var quotient :- Narrow(FloorDiv(amount * Q64, liquidity), U128_LIMIT);
      Narrow(sqrtPrice + quotient, U128_LIMIT)
    else
      var quotient :- Narrow(DivRoundingUp(amount * Q64, liquidity), U128_LIMIT);
      CheckedSub(sqrtPrice, quotient)
  }

  /** `get_next_sqrt_price_from_input` */
  function GetNextSqrtPriceFromInput(sqrtPrice: nat, liquidity: nat, amountIn: nat, zeroForOne: bool): Result<nat> {
    if sqrtPrice == 0 || liquidity == 0 then Err(AssertionFailed)
    else if zeroForOne then GetNextSqrtPriceFromAmount0RoundingUp(sqrtPrice, liquidity, amountIn, true)
    else GetNextSqrtPriceFromAmount1RoundingDown(sqrtPrice, liquidity, amountIn, true)
  }

  /** `get_next_sqrt_price_from_output` */
  function GetNextSqrtPriceFromOutput(sqrtPrice: nat, liquidity: nat, amountOut: nat, zeroForOne: bool): Result<nat> {
    if sqrtPrice == 0 || liquidity == 0 then Err(AssertionFailed)
    else if zeroForOne then GetNextSqrtPriceFromAmount1RoundingDown(sqrtPrice, liquidity, amountOut, false)
    else GetNextSqrtPriceFromAmount0RoundingUp(sqrtPrice, liquidity, amountOut, false)
  }
}
