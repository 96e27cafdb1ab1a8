/** programs/amm/src/libraries/liquidity_math.rs: token amounts of a liquidity over a price
    range, and the liquidity an amount buys. */
module LiquidityMath {
  import opened Wrappers
  import opened FullMath

  /** `add_delta`: `y` is an i128. */
  function AddDelta(x: nat, y: int): (r: Result<nat>)
    ensures r.Ok? ==> r.value == x + y
    ensures r.Ok? <==> if y < 0 then 0 <= x + y && -y < I128_LIMIT else x + y < U128_LIMIT
    ensures r.Ok? && x < U128_LIMIT ==> r.value < U128_LIMIT
  {
    if y < 0 then
      if -y >= I128_LIMIT then Err(Overflow)
      else
        var z :- CheckedSub(x, -y);
        if x > z then Ok(z) else Err(LiquiditySubValue)
    else
      Narrow(x + y, U128_LIMIT)
  }

  function Low(a: nat, b: nat): nat { if a > b then b else a }

  function High(a: nat, b: nat): nat { if a > b then a else b }

  /** `get_delta_amount_0_unsigned`: L * 2^64 * (b - a) / b / a, each quotient rounded the same way. */
  function GetDeltaAmount0Unsigned(ratioA: nat, ratioB: nat, liquidity: nat, roundUp: bool): Result<nat> {
    var a, b := Low(ratioA, ratioB), High(ratioA, ratioB);
    if a == 0 then Err(AssertionFailed)
    else if roundUp then
      var m :- MulDivCeil256(liquidity * Q64, b - a, b);
      Narrow(DivRoundingUp(m, a), U64_LIMIT)
    else
      var m :- MulDivFloor256(liquidity * Q64, b - a, b);
      Narrow(FloorDiv(m, a), U64_LIMIT)
  }

  /** `get_delta_amount_1_unsigned`: L * (b - a) / 2^64. */
  function GetDeltaAmount1Unsigned(ratioA: nat, ratioB: nat, liquidity: nat, roundUp: bool): Result<nat> {
    var a, b := Low(ratioA, ratioB), High(ratioA, ratioB);
    var m :- if roundUp then MulDivCeil256(liquidity, b - a, Q64) else MulDivFloor256(liquidity, b - a, Q64);
    Narrow(m, U64_LIMIT)
  }

  /** The two nested roundings of token 0 amount to one rounding of L * 2^64 * (b - a) / (a * b). */
  lemma Amount0IsOneRounding(a: nat, b: nat, liquidity: nat, roundUp: bool)
    requires 0 < a <= b
    ensures GetDeltaAmount0Unsigned(a, b, liquidity, roundUp) == GetDeltaAmount0Unsigned(b, a, liquidity, roundUp)
    ensures var r := GetDeltaAmount0Unsigned(a, b, liquidity, roundUp);
            (r.Err? ==> r.error == Overflow) &&
            (r.Ok? ==> var n := liquidity * Q64 * (b - a);
                       r.value < U64_LIMIT &&
                       if roundUp then IsCeil(r.value, n, b * a) else IsFloor(r.value, n, b * a))
  {
    var n := liquidity * Q64 * (b - a);
    if roundUp {
      var m := MulDivCeil256(liquidity * Q64, b - a, b);
      MulDivCeilIs(liquidity * Q64, b - a, b, U256_LIMIT, U128_LIMIT);
      if m.Ok? {
        DivRoundingUpIs(m.value, a);
        NestedCeil(DivRoundingUp(m.value, a), m.value, n, b, a);
      }
    } else {
      var m := MulDivFloor256(liquidity * Q64, b - a, b);
      MulDivFloorIs(liquidity * Q64, b - a, b, U256_LIMIT, U128_LIMIT);
      if m.Ok? {
        FloorDivIs(m.value, a);
        NestedFloor(FloorDiv(m.value, a), m.value, n, b, a);
      }
    }
  }

  lemma Amount1IsOneRounding(a: nat, b: nat, liquidity: nat, roundUp: bool)
    requires a <= b
    ensures GetDeltaAmount1Unsigned(a, b, liquidity, roundUp) == GetDeltaAmount1Unsigned(b, a, liquidity, roundUp)
    ensures var r := GetDeltaAmount1Unsigned(a, b, liquidity, roundUp);
            (r.Err? ==> r.error == Overflow) &&
            (r.Ok? ==> r.value < U64_LIMIT &&
                       if roundUp then IsCeil(r.value, liquidity * (b - a), Q64)
                       else IsFloor(r.value, liquidity * (b - a), Q64))
  {
    MulDivCeilIs(liquidity, b - a, Q64, U256_LIMIT, U128_LIMIT);
    MulDivFloorIs(liquidity, b - a, Q64, U256_LIMIT, U128_LIMIT);
  }

  function Signed(negative: bool, v: int): Result<int> {
    Ok(if negative then -v else v)
  }

  /** `get_delta_amount_0_signed`: a negative liquidity is paid out, rounded down. */
  function GetDeltaAmount0Signed(ratioA: nat, ratioB: nat, liquidity: int): Result<int> {
    var magnitude: nat := if liquidity < 0 then -liquidity else liquidity;
    var unsigned :- GetDeltaAmount0Unsigned(ratioA, ratioB, magnitude, liquidity >= 0);
    var v :- Narrow(unsigned, I64_LIMIT);
    Signed(liquidity < 0, v)
  }

  function GetDeltaAmount1Signed(ratioA: nat, ratioB: nat, liquidity: int): Result<int> {
    var magnitude: nat := if liquidity < 0 then -liquidity else liquidity;
    var unsigned :- GetDeltaAmount1Unsigned(ratioA, ratioB, magnitude, liquidity >= 0);
    var v :- Narrow(unsigned, I64_LIMIT);
    Signed(liquidity < 0, v)
  }

  /** `get_delta_amounts_signed`, with the tick table's prices of the two bounds as arguments. */
  function GetDeltaAmountsSigned(tickCurrent: int, sqrtPrice: nat, tickLower: int, tickUpper: int,
                                 priceLower: nat, priceUpper: nat, liquidityDelta: int): Result<(int, int)> {
    if tickCurrent < tickLower then
      var amount0 :- GetDeltaAmount0Signed(priceLower, priceUpper, liquidityDelta);
      Ok((amount0, 0))
    else if tickCurrent < tickUpper then
      var amount0 :- GetDeltaAmount0Signed(sqrtPrice, priceUpper, liquidityDelta);
      var amount1 :- GetDeltaAmount1Signed(priceLower, sqrtPrice, liquidityDelta);
      Ok((amount0, amount1))
    else
      var amount1 :- GetDeltaAmount1Signed(priceLower, priceUpper, liquidityDelta);
      Ok((0, amount1))
  }

  /** `get_liquidity_from_amount_0` */
  function GetLiquidityFromAmount0(ratioA: nat, ratioB: nat, amount0: nat): Result<nat> {
    var a, b := Low(ratioA, ratioB), High(ratioA, ratioB);
    var intermediate :- MulDivFloor128(a, b, Q64);
    MulDivFloor128(amount0, intermediate, b - a)
  }

  /** `get_liquidity_from_amount_1` */
  function GetLiquidityFromAmount1(ratioA: nat, ratioB: nat, amount1: nat): Result<nat> {
    var a, b := Low(ratioA, ratioB), High(ratioA, ratioB);
    MulDivFloor128(amount1, Q64, b - a)
  }

  /** `get_liquidity_from_single_amount_0` */
  function GetLiquidityFromSingleAmount0(ratio: nat, ratioA: nat, ratioB: nat, amount0: nat): Result<nat> {
    var a, b := Low(ratioA, ratioB), High(ratioA, ratioB);
    if ratio <= a then GetLiquidityFromAmount0(a, b, amount0)
    else if ratio < b then GetLiquidityFromAmount0(ratio, b, amount0)
    else Ok(0)
  }

  /** `get_liquidity_from_single_amount_1` */
  function GetLiquidityFromSingleAmount1(ratio: nat, ratioA: nat, ratioB: nat, amount1: nat): Result<nat> {
    var a, b := Low(ratioA, ratioB), High(ratioA, ratioB);
    if ratio <= a then Ok(0)
    else if ratio < b then GetLiquidityFromAmount1(a, ratio, amount1)
    else GetLiquidityFromAmount1(a, b, amount1)
  }
}
