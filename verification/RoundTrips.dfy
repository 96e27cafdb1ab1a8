/** Between amounts and liquidity, and back (programs/amm/src/libraries/liquidity_math.rs). */
module RoundTrips {
  import opened Wrappers
  import opened FullMath
  import opened LiquidityMath
  import opened PoolTypes
  import opened Ledger
  import opened Invariants
  import opened Vaults

  // -----------------------------------------------------------------------------------------
  // Minting for a budget

  /** The liquidity an amount of token 0 buys between two prices costs no more than that amount. */
  lemma Budget0IsKept(a: nat, b: nat, amount: nat, liquidity: nat, cost: nat)
    requires 0 < a < b && GetLiquidityFromAmount0(a, b, amount) == Ok(liquidity)
    requires GetDeltaAmount0Unsigned(a, b, liquidity, true) == Ok(cost)
    ensures cost <= amount
  {
    hide MulDivFloor, GetDeltaAmount0Unsigned;
    var intermediate := MulDivFloor128(a, b, Q64).value;
    MulDivFloorIs(a, b, Q64, U256_LIMIT, U128_LIMIT);
    MulDivFloorIs(amount, intermediate, b - a, U256_LIMIT, U128_LIMIT);
    Amount0IsOneRounding(a, b, liquidity, true);
    MulLe(liquidity * (b - a), amount * intermediate, Q64);
    MulLe(intermediate * Q64, a * b, amount);
    Budget0Algebra(liquidity, b - a, amount, intermediate, a, b);
    CeilIsLeast(cost, liquidity * Q64 * (b - a), b * a, amount);
  }

  lemma Budget0Algebra(l: nat, gap: nat, amount: nat, i: nat, a: nat, b: nat)
    requires (l * gap) * Q64 <= (amount * i) * Q64 && (i * Q64) * amount <= (a * b) * amount
    ensures l * Q64 * gap <= amount * (b * a)
  {
    assert l * Q64 * gap == (l * gap) * Q64;
    assert (amount * i) * Q64 == (i * Q64) * amount;
    assert (a * b) * amount == amount * (b * a);
  }

  /** Likewise for token 1. */
  lemma Budget1IsKept(a: nat, b: nat, amount: nat, liquidity: nat, cost: nat)
    requires a < b && GetLiquidityFromAmount1(a, b, amount) == Ok(liquidity)
    requires GetDeltaAmount1Unsigned(a, b, liquidity, true) == Ok(cost)
    ensures cost <= amount
  {
    hide MulDivFloor, GetDeltaAmount1Unsigned;
    MulDivFloorIs(amount, Q64, b - a, U256_LIMIT, U128_LIMIT);
    Amount1IsOneRounding(a, b, liquidity, true);
    CeilIsLeast(cost, liquidity * (b - a), Q64, amount);
  }

  /** The liquidity for a budget is the largest whose rounded-down price product fits it. */
  lemma BudgetIsSpent(a: nat, b: nat, amount: nat, liquidity: nat, token0: bool)
    requires 0 < a < b
    requires (if token0 then GetLiquidityFromAmount0(a, b, amount) else GetLiquidityFromAmount1(a, b, amount)) == Ok(liquidity)
    ensures if token0 then exists product :: IsFloor(product, a * b, Q64) && amount * product < (liquidity + 1) * (b - a)
            else amount * Q64 < (liquidity + 1) * (b - a)
  {
    hide MulDivFloor;
    if token0 {
      MulDivFloorIs(a, b, Q64, U256_LIMIT, U128_LIMIT);
      var product := MulDivFloor128(a, b, Q64).value;
      MulDivFloorIs(amount, product, b - a, U256_LIMIT, U128_LIMIT);
      assert IsFloor(product, a * b, Q64);
    } else {
      MulDivFloorIs(amount, Q64, b - a, U256_LIMIT, U128_LIMIT);
    }
  }

  /** What a mint of a positive liquidity charges, as unsigned amounts. */
  lemma MintCharges(cur: int, x: nat, lower: int, upper: int, low: nat, high: nat, liquidity: nat, amount0: int, amount1: int)
    requires 0 < liquidity && GetDeltaAmountsSigned(cur, x, lower, upper, low, high, liquidity) == Ok((amount0, amount1))
    ensures cur < lower ==> GetDeltaAmount0Unsigned(low, high, liquidity, true) == Ok(amount0) && amount1 == 0
    ensures lower <= cur < upper ==> GetDeltaAmount0Unsigned(x, high, liquidity, true) == Ok(amount0)
    ensures lower <= cur < upper ==> GetDeltaAmount1Unsigned(low, x, liquidity, true) == Ok(amount1)
    ensures lower <= cur && upper <= cur ==> GetDeltaAmount1Unsigned(low, high, liquidity, true) == Ok(amount1) && amount0 == 0
  {
    hide GetDeltaAmount0Unsigned, GetDeltaAmount1Unsigned;
  }

  /** The price, moved into the range between two prices. */
  function Inside(x: nat, low: nat, high: nat): nat {
    if x <= low then low else if high <= x then high else x
  }

  lemma FromAmount0(y: nat, high: nat, amount: nat, liquidity: nat)
    requires 0 < y < high && GetLiquidityFromAmount0(y, high, amount) == Ok(liquidity)
    ensures liquidity * (high - y) <= amount * (y * high / Q64) < (liquidity + 1) * (high - y)
  {
    hide MulDivFloor;
    MulDivFloorIs(y, high, Q64, U256_LIMIT, U128_LIMIT);
    var product := MulDivFloor128(y, high, Q64).value;
    FloorIsQuotient(product, y * high, Q64);
    MulDivFloorIs(amount, product, high - y, U256_LIMIT, U128_LIMIT);
    assert (liquidity + 1) * (high - y) == liquidity * (high - y) + (high - y);
  }

  lemma FromAmount1(low: nat, z: nat, amount: nat, liquidity: nat)
    requires low < z && GetLiquidityFromAmount1(low, z, amount) == Ok(liquidity)
    ensures liquidity * (z - low) <= amount * Q64 < (liquidity + 1) * (z - low)
  {
    hide MulDivFloor;
    MulDivFloorIs(amount, Q64, z - low, U256_LIMIT, U128_LIMIT);
    assert (liquidity + 1) * (z - low) == liquidity * (z - low) + (z - low);
  }

  /** The largest liquidity whose share of the range still ahead of the price, on the budget's side of it, the budget
      pays for. */
  ghost predicate BuysMost(x: nat, low: nat, high: nat, base0: bool, budget: nat, liquidity: nat) {
    var y := Inside(x, low, high);
    if base0 then
      if y == high then liquidity == 0
      else liquidity * (high - y) <= budget * (y * high / 0x1_0000_0000_0000_0000) < (liquidity + 1) * (high - y)
    else
      if y == low then liquidity == 0
      else liquidity * (y - low) <= budget * 0x1_0000_0000_0000_0000 < (liquidity + 1) * (y - low)
  }

  /** `get_liquidity_from_single_amount_0` and `_1`, as `add_liquidity` asks for them. */
  lemma BudgetBuysMost(table: PriceTable, x: nat, p: ProtocolPosition, max0: nat, max1: nat, base0: bool, liquidity: nat)
    requires ValidTable(table) && MIN_TICK <= p.tickLower < p.tickUpper <= MAX_TICK
    requires RequestedLiquidity(table, x, p, 0, max0, max1, Some(base0)) == Ok(liquidity)
    ensures BuysMost(x, Price(table, p.tickLower), Price(table, p.tickUpper), base0, if base0 then max0 else max1, liquidity)
  {
    hide GetLiquidityFromAmount0, GetLiquidityFromAmount1, ValidTable;
    PriceIsMonotone(table, p.tickLower, p.tickUpper);
    var low, high := Price(table, p.tickLower), Price(table, p.tickUpper);
    var y := Inside(x, low, high);
    TableIsFull(table);
    if base0 && y < high { FromAmount0(y, high, max0, liquidity); }
    if !base0 && low < y { FromAmount1(low, y, max1, liquidity); }
  }

  lemma TableIsFull(table: PriceTable)
    requires ValidTable(table)
    ensures |table| == MAX_TICK - MIN_TICK + 1
  {}

  /** With the pool's tick and price in agreement, a single-token budget buys the most it pays for at the current price,
      and minting that charges no more of the token than the budget, so it never fails the caller's own limit. */
  lemma BudgetIsKept(l: Ledger, p: ProtocolPosition, max0: nat, max1: nat, base0: bool, liquidity: nat, amount0: int, amount1: int)
    requires PriceInv(l) && MIN_TICK <= p.tickLower < p.tickUpper <= MAX_TICK
    requires RequestedLiquidity(l.table, l.pool.sqrtPrice, p, 0, max0, max1, Some(base0)) == Ok(liquidity) && 0 < liquidity
    requires GetDeltaAmountsSigned(l.pool.tickCurrent, l.pool.sqrtPrice, p.tickLower, p.tickUpper,
                                   Price(l.table, p.tickLower), Price(l.table, p.tickUpper), liquidity) == Ok((amount0, amount1))
    ensures if base0 then amount0 <= max0 else amount1 <= max1
    ensures BuysMost(l.pool.sqrtPrice, Price(l.table, p.tickLower), Price(l.table, p.tickUpper), base0, if base0 then max0 else max1, liquidity)
  {
    hide GetDeltaAmount0Unsigned, GetDeltaAmount1Unsigned, GetDeltaAmountsSigned, GetLiquidityFromAmount0, GetLiquidityFromAmount1, BuysMost;
    BudgetBuysMost(l.table, l.pool.sqrtPrice, p, max0, max1, base0, liquidity);
    PriceIsMonotone(l.table, p.tickLower, p.tickUpper);
    TickTellsPrice(l, p.tickLower);
    TickTellsPrice(l, p.tickUpper);
    var cur, x, low, high := l.pool.tickCurrent, l.pool.sqrtPrice, Price(l.table, p.tickLower), Price(l.table, p.tickUpper);
    MintCharges(cur, x, p.tickLower, p.tickUpper, low, high, liquidity, amount0, amount1);
    if base0 {
      if x <= low { Budget0IsKept(low, high, max0, liquidity, if amount0 >= 0 then amount0 else 0); }
      else { Budget0IsKept(x, high, max0, liquidity, if amount0 >= 0 then amount0 else 0); }
    } else {
      if x < high { Budget1IsKept(low, x, max1, liquidity, if amount1 >= 0 then amount1 else 0); }
      else { Budget1IsKept(low, high, max1, liquidity, if amount1 >= 0 then amount1 else 0); }
    }
  }

  // -----------------------------------------------------------------------------------------
  // Minting and burning at one price

  lemma CeilAndFloor(c: int, f: int, n: int, d: int)
    requires 0 < d && IsCeil(c, n, d) && IsFloor(f, n, d)
    ensures f <= c <= f + 1
  {
    MulLeCancel(f, c, d);
    assert (f + 1) * d == f * d + d;
    CeilIsLeast(c, n, d, f + 1);
  }

  lemma MintThenBurn0(x: nat, y: nat, liquidity: nat)
    requires 0 < x <= y && 0 < liquidity
    requires GetDeltaAmount0Signed(x, y, liquidity).Ok? && GetDeltaAmount0Signed(x, y, -(liquidity as int)).Ok?
    ensures var paid, back := GetDeltaAmount0Signed(x, y, liquidity).value, -GetDeltaAmount0Signed(x, y, -(liquidity as int)).value;
            back <= paid <= back + 1
  {
    hide GetDeltaAmount0Unsigned;
    Amount0IsOneRounding(x, y, liquidity, true);
    Amount0IsOneRounding(x, y, liquidity, false);
    var paid, back := GetDeltaAmount0Signed(x, y, liquidity).value, -GetDeltaAmount0Signed(x, y, -(liquidity as int)).value;
    CeilAndFloor(paid, back, liquidity * Q64 * (y - x), y * x);
  }

  lemma MintThenBurn1(x: nat, y: nat, liquidity: nat)
    requires x <= y && 0 < liquidity
    requires GetDeltaAmount1Signed(x, y, liquidity).Ok? && GetDeltaAmount1Signed(x, y, -(liquidity as int)).Ok?
    ensures var paid, back := GetDeltaAmount1Signed(x, y, liquidity).value, -GetDeltaAmount1Signed(x, y, -(liquidity as int)).value;
            back <= paid <= back + 1
  {
    hide GetDeltaAmount1Unsigned;
    Amount1IsOneRounding(x, y, liquidity, true);
    Amount1IsOneRounding(x, y, liquidity, false);
    var paid, back := GetDeltaAmount1Signed(x, y, liquidity).value, -GetDeltaAmount1Signed(x, y, -(liquidity as int)).value;
    CeilAndFloor(paid, back, liquidity * (y - x), Q64);
  }

  /** Whatever the range, minting and burning the same liquidity at one price returns at most the
      deposit, and at most one unit less of each token. */
  lemma MintThenBurn(cur: int, x: nat, lower: int, upper: int, low: nat, high: nat, liquidity: nat)
    requires 0 < low < high && (lower <= cur < upper ==> low <= x <= high) && 0 < liquidity
    requires GetDeltaAmountsSigned(cur, x, lower, upper, low, high, liquidity).Ok?
    requires GetDeltaAmountsSigned(cur, x, lower, upper, low, high, -(liquidity as int)).Ok?
    ensures var (paid0, paid1) := GetDeltaAmountsSigned(cur, x, lower, upper, low, high, liquidity).value;
            var (back0, back1) := GetDeltaAmountsSigned(cur, x, lower, upper, low, high, -(liquidity as int)).value;
            -back0 <= paid0 <= -back0 + 1 && -back1 <= paid1 <= -back1 + 1
  {
    hide GetDeltaAmount0Signed, GetDeltaAmount1Signed;
    if cur < lower { MintThenBurn0(low, high, liquidity); }
    else if cur < upper { MintThenBurn0(x, high, liquidity); MintThenBurn1(low, x, liquidity); }
    else { MintThenBurn1(low, high, liquidity); }
  }

  /** Amounts a burn of `liquidity` pays. */
  function PaidBack(cur: int, x: nat, lower: int, upper: int, low: nat, high: nat, liquidity: nat): Result<(int, int)> {
    var amounts :- GetDeltaAmountsSigned(cur, x, lower, upper, low, high, -(liquidity as int));
    Ok((-amounts.0, -amounts.1))
  }

  lemma Pieces0(x: nat, y: nat, m: nat, n: nat)
    requires 0 < x <= y && 0 < m && 0 < n
    requires GetDeltaAmount0Signed(x, y, -(m as int)).Ok? && GetDeltaAmount0Signed(x, y, -(n as int)).Ok?
    requires GetDeltaAmount0Signed(x, y, -((m + n) as int)).Ok?
    ensures var whole := -GetDeltaAmount0Signed(x, y, -((m + n) as int)).value;
            var parts := -GetDeltaAmount0Signed(x, y, -(m as int)).value - GetDeltaAmount0Signed(x, y, -(n as int)).value;
            parts <= whole <= parts + 1
  {
    hide GetDeltaAmount0Unsigned;
    Amount0IsOneRounding(x, y, m, false);
    Amount0IsOneRounding(x, y, n, false);
    Amount0IsOneRounding(x, y, m + n, false);
    assert (m + n) * Q64 * (y - x) == m * Q64 * (y - x) + n * Q64 * (y - x);
    FloorsAddUp(-GetDeltaAmount0Signed(x, y, -(m as int)).value, -GetDeltaAmount0Signed(x, y, -(n as int)).value,
                -GetDeltaAmount0Signed(x, y, -((m + n) as int)).value, m * Q64 * (y - x), n * Q64 * (y - x), y * x);
  }

  lemma Pieces1(x: nat, y: nat, m: nat, n: nat)
    requires x <= y && 0 < m && 0 < n
    requires GetDeltaAmount1Signed(x, y, -(m as int)).Ok? && GetDeltaAmount1Signed(x, y, -(n as int)).Ok?
    requires GetDeltaAmount1Signed(x, y, -((m + n) as int)).Ok?
    ensures var whole := -GetDeltaAmount1Signed(x, y, -((m + n) as int)).value;
            var parts := -GetDeltaAmount1Signed(x, y, -(m as int)).value - GetDeltaAmount1Signed(x, y, -(n as int)).value;
            parts <= whole <= parts + 1
  {
    hide GetDeltaAmount1Unsigned;
    Amount1IsOneRounding(x, y, m, false);
    Amount1IsOneRounding(x, y, n, false);
    Amount1IsOneRounding(x, y, m + n, false);
    assert (m + n) * (y - x) == m * (y - x) + n * (y - x);
    FloorsAddUp(-GetDeltaAmount1Signed(x, y, -(m as int)).value, -GetDeltaAmount1Signed(x, y, -(n as int)).value,
                -GetDeltaAmount1Signed(x, y, -((m + n) as int)).value, m * (y - x), n * (y - x), Q64);
  }

  /** Burning in two pieces never pays more than burning at once, and at most one unit less. */
  lemma BurnInPieces(cur: int, x: nat, lower: int, upper: int, low: nat, high: nat, m: nat, n: nat)
    requires 0 < low < high && (lower <= cur < upper ==> low <= x <= high) && 0 < m && 0 < n
    requires PaidBack(cur, x, lower, upper, low, high, m).Ok? && PaidBack(cur, x, lower, upper, low, high, n).Ok?
    requires PaidBack(cur, x, lower, upper, low, high, m + n).Ok?
    ensures var first, second := PaidBack(cur, x, lower, upper, low, high, m).value, PaidBack(cur, x, lower, upper, low, high, n).value;
            var whole := PaidBack(cur, x, lower, upper, low, high, m + n).value;
            && first.0 + second.0 <= whole.0 <= first.0 + second.0 + 1
            && first.1 + second.1 <= whole.1 <= first.1 + second.1 + 1
  {
    hide GetDeltaAmount0Signed, GetDeltaAmount1Signed;
    if cur < lower { Pieces0(low, high, m, n); }
    else if cur < upper { Pieces0(x, high, m, n); Pieces1(low, x, m, n); }
    else { Pieces1(low, high, m, n); }
  }
}
