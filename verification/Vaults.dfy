/** The vaults hold every range's exact share of the curve, besides all fees. */
module Vaults {
  import opened Wrappers
  import opened FullMath
  import opened LiquidityMath
  import opened PoolTypes
  import opened Ledger
  import opened Sums
  import opened Invariants
  import opened PositionLemmas
  import SwapMath

  /** 2^64 / x */
  ghost function Inverse(x: nat): (r: real)
    requires 0 < x
    ensures r * x as real == Q64 as real
  {
    Q64 as real / x as real
  }

  function Clamp(x: nat, low: nat, high: nat): nat {
    if x <= low then low else if x >= high then high else x
  }

  /** Exact tokens behind one unit of liquidity between two prices: token 0 above the current
      price, token 1 below it. */
  ghost function Unit(token: int, sqrtPrice: nat, low: nat, high: nat): real
    requires 0 < low <= high
  {
    var x := Clamp(sqrtPrice, low, high);
    if token == 0 then Inverse(x) - Inverse(high) else (x - low) as real / Q64 as real
  }

  ghost function UnitOf(l: Ledger, p: ProtocolPosition, token: int): real
    requires ValidTable(l.table) && MIN_TICK <= p.tickLower < p.tickUpper <= MAX_TICK
  {
    PriceIsMonotone(l.table, p.tickLower, p.tickUpper);
    Unit(token, l.pool.sqrtPrice, Price(l.table, p.tickLower), Price(l.table, p.tickUpper))
  }

  /** The exact, unrounded tokens behind every range. */
  ghost function Backing(l: Ledger, token: int): (r: seq<real>)
    requires ValidTable(l.table) && ValidRanges(l)
    ensures |r| == |l.protocols|
    ensures forall j :: 0 <= j < |r| ==> r[j] == Share(l.protocols[j].liquidity, UnitOf(l, l.protocols[j], token))
  {
    seq(|l.protocols|, j requires 0 <= j < |l.protocols| => Share(l.protocols[j].liquidity, UnitOf(l, l.protocols[j], token)))
  }

  /** What a vault holds beyond unclaimed trading fees, protocol fees and fund fees. */
  function Principal(l: Ledger, token: int): int
    requires 0 <= token < 2
  {
    l.vaults[token] - Unclaimed(l.pool, token) - l.pool.protocolFees[token] - l.pool.fundFees[token]
  }

  ghost predicate VaultSolvent(l: Ledger, token: int)
    requires ValidTable(l.table) && ValidRanges(l) && 0 <= token < 2
  {
    RealSum(Backing(l, token)) <= Principal(l, token) as real
  }

  ghost predicate VaultsInv(l: Ledger)
    requires ValidTable(l.table) && ValidRanges(l)
  {
    VaultSolvent(l, 0) && VaultSolvent(l, 1)
  }

  // -----------------------------------------------------------------------------------------
  // Rounded amounts against exact ones

  lemma RealCancel(a: real, b: real, d: real)
    requires a * d <= b * d && d > 0.0
    ensures a <= b
  {}

  /** liquidity * (2^64 / x - 2^64 / y), with both divisions cleared. */
  lemma InverseDifference(liquidity: int, x: nat, y: nat)
    requires 0 < x && 0 < y
    ensures (liquidity as real * (Inverse(x) - Inverse(y))) * (y * x) as real == (liquidity * Q64 * (y - x)) as real
  {
    var u, v, xr, yr, lr := Inverse(x), Inverse(y), x as real, y as real, liquidity as real;
    assert (y * x) as real == yr * xr;
    assert (liquidity * Q64 * (y - x)) as real == lr * Q64 as real * (yr - xr);
    calc {
      (lr * (u - v)) * (yr * xr);
    == lr * ((u * xr) * yr - (v * yr) * xr);
    == lr * (Q64 as real * yr - Q64 as real * xr);
    }
  }

  lemma CoversInverse(r: int, liquidity: nat, x: nat, y: nat)
    requires 0 < x && 0 < y
    ensures liquidity * Q64 * (y - x) <= r * (y * x) ==> Share(liquidity, Inverse(x) - Inverse(y)) <= r as real
    ensures r * (y * x) <= liquidity * Q64 * (y - x) ==> r as real <= Share(liquidity, Inverse(x) - Inverse(y))
  {
    var unit := Inverse(x) - Inverse(y);
    ShareIsProduct(liquidity, unit);
    InverseDifference(liquidity, x, y);
    assert (r * (y * x)) as real == r as real * (y * x) as real;
    if liquidity * Q64 * (y - x) <= r * (y * x) {
      RealCancel(liquidity as real * unit, r as real, (y * x) as real);
    }
    if r * (y * x) <= liquidity * Q64 * (y - x) {
      RealCancel(r as real, liquidity as real * unit, (y * x) as real);
    }
  }

  lemma CoversGap(r: int, liquidity: nat, gap: int)
    ensures liquidity * gap <= r * Q64 ==> Share(liquidity, gap as real / Q64 as real) <= r as real
    ensures r * Q64 <= liquidity * gap ==> r as real <= Share(liquidity, gap as real / Q64 as real)
  {
    var unit := gap as real / Q64 as real;
    ShareIsProduct(liquidity, unit);
    assert unit * Q64 as real == gap as real;
    assert (liquidity as real * unit) * Q64 as real == (liquidity * gap) as real;
    if liquidity * gap <= r * Q64 { RealCancel(liquidity as real * unit, r as real, Q64 as real); }
    if r * Q64 <= liquidity * gap { RealCancel(r as real, liquidity as real * unit, Q64 as real); }
  }

  /** A signed amount errs in the pool's favour: in rounded up, out rounded down. */
  ghost predicate Covers(amount: int, delta: int, unit: real) {
    if delta >= 0 then Share(delta, unit) <= amount as real
    else (-amount) as real <= Share(-delta, unit)
  }

  lemma Signed0Covers(x: nat, y: nat, delta: int)
    requires 0 < x <= y && GetDeltaAmount0Signed(x, y, delta).Ok?
    ensures Covers(GetDeltaAmount0Signed(x, y, delta).value, delta, Inverse(x) - Inverse(y))
  {
    var magnitude: nat := if delta < 0 then -delta else delta;
    Amount0IsOneRounding(x, y, magnitude, delta >= 0);
    CoversInverse(GetDeltaAmount0Unsigned(x, y, magnitude, delta >= 0).value, magnitude, x, y);
  }

  lemma Signed1Covers(x: nat, y: nat, delta: int)
    requires x <= y && GetDeltaAmount1Signed(x, y, delta).Ok?
    ensures Covers(GetDeltaAmount1Signed(x, y, delta).value, delta, (y - x) as real / Q64 as real)
  {
    var magnitude: nat := if delta < 0 then -delta else delta;
    Amount1IsOneRounding(x, y, magnitude, delta >= 0);
    CoversGap(GetDeltaAmount1Unsigned(x, y, magnitude, delta >= 0).value, magnitude, y - x);
  }

  lemma {:induction false} NothingCovered(n: nat)
    ensures Share(n, 0.0) == 0.0
  {
    if n > 0 { NothingCovered(n - 1); }
  }

  // -----------------------------------------------------------------------------------------
  // Minting and burning

  /** The current tick and the current price agree about which side of a range they are on. */
  lemma TickTellsPrice(l: Ledger, tick: int)
    requires PriceInv(l) && MIN_TICK <= tick <= MAX_TICK
    ensures l.pool.tickCurrent < tick ==> l.pool.sqrtPrice <= Price(l.table, tick)
    ensures tick <= l.pool.tickCurrent ==> Price(l.table, tick) <= l.pool.sqrtPrice
  {
    PriceIsMonotone(l.table, tick, l.pool.tickCurrent);
    PriceIsMonotone(l.table, tick, l.pool.tickCurrent + 1);
  }

  /** Outside its range a position holds one token only. */
  lemma UnitOutside(x: nat, low: nat, high: nat)
    requires 0 < low < high
    ensures x <= low ==> Unit(0, x, low, high) == Inverse(low) - Inverse(high) && Unit(1, x, low, high) == 0.0
    ensures high <= x ==> Unit(0, x, low, high) == 0.0 && Unit(1, x, low, high) == (high - low) as real / Q64 as real
    ensures low <= x <= high ==> Unit(0, x, low, high) == Inverse(x) - Inverse(high) && Unit(1, x, low, high) == (x - low) as real / Q64 as real
  {}

  /** What a change of liquidity pays in covers its exact backing, and what it takes out does not
      exceed it. */
  lemma AmountsCoverBacking(cur: int, x: nat, lower: int, upper: int, low: nat, high: nat, delta: int)
    requires 0 < low < high && lower < upper
    requires cur < lower ==> x <= low
    requires lower <= cur < upper ==> low <= x <= high
    requires upper <= cur ==> high <= x
    requires GetDeltaAmountsSigned(cur, x, lower, upper, low, high, delta).Ok?
    ensures var (amount0, amount1) := GetDeltaAmountsSigned(cur, x, lower, upper, low, high, delta).value;
            Covers(amount0, delta, Unit(0, x, low, high)) && Covers(amount1, delta, Unit(1, x, low, high))
  {
    UnitOutside(x, low, high);
    NothingCovered(if delta < 0 then -delta else delta);
    if cur < lower {
      Signed0Covers(low, high, delta);
    } else if cur < upper {
      Signed0Covers(x, high, delta);
      Signed1Covers(low, x, delta);
    } else {
      Signed1Covers(low, high, delta);
    }
  }

  /** Backing depends on ranges, table and price only, and one range's share is proportional to its
      liquidity. */
  lemma BackingPoint(l1: Ledger, l2: Ledger, j: nat, token: int)
    requires ValidTable(l1.table) && ValidRanges(l1) && ValidRanges(l2) && j < |l1.protocols|
    requires l2.table == l1.table && l2.pool.sqrtPrice == l1.pool.sqrtPrice
    requires |l2.protocols| == |l1.protocols|
    requires forall k :: 0 <= k < |l1.protocols| && k != j ==> l2.protocols[k] == l1.protocols[k]
    requires l2.protocols[j].tickLower == l1.protocols[j].tickLower && l2.protocols[j].tickUpper == l1.protocols[j].tickUpper
    ensures RealSum(Backing(l2, token)) == RealSum(Backing(l1, token))
              + Share(l2.protocols[j].liquidity, UnitOf(l1, l1.protocols[j], token))
              - Share(l1.protocols[j].liquidity, UnitOf(l1, l1.protocols[j], token))
  {
    var s, t := Backing(l1, token), Backing(l2, token);
    forall k | 0 <= k < |s| && k != j ensures s[k] == t[k] {
      assert UnitOf(l2, l2.protocols[k], token) == UnitOf(l1, l1.protocols[k], token);
    }
    assert UnitOf(l2, l2.protocols[j], token) == UnitOf(l1, l1.protocols[j], token);
    RealSumPoint(s, t, j);
  }

  // -----------------------------------------------------------------------------------------
  // Price moves

  /** Every initialized tick lies on the side of both prices that the current tick says. */
  ghost predicate NoTickBetween(l: Ledger, to: nat)
    requires ValidTable(l.table)
  {
    forall t :: MIN_TICK <= t <= MAX_TICK && TickOf(l.ticks, t).IsInitialized() ==>
      if t <= l.pool.tickCurrent then Price(l.table, t) <= l.pool.sqrtPrice && Price(l.table, t) <= to
      else l.pool.sqrtPrice <= Price(l.table, t) && to <= Price(l.table, t)
  }

  /** Change of one unit's backing when the price moves inside its range. */
  ghost function UnitShift(token: int, from: nat, to: nat): real
    requires 0 < from && 0 < to
  {
    if token == 0 then Inverse(to) - Inverse(from) else (to - from) as real / Q64 as real
  }

  /** A price move shifts one unit of an active range, and of no other. */
  lemma UnitOfRangeShifts(l: Ledger, l': Ledger, p: ProtocolPosition, token: int)
    requires ValidTable(l.table) && 0 <= token < 2 && l'.table == l.table
    requires MIN_TICK <= p.tickLower < p.tickUpper <= MAX_TICK
    requires TickOf(l.ticks, p.tickLower).IsInitialized() && TickOf(l.ticks, p.tickUpper).IsInitialized()
    requires 0 < l.pool.sqrtPrice && 0 < l'.pool.sqrtPrice && NoTickBetween(l, l'.pool.sqrtPrice)
    ensures UnitOf(l', p, token) == UnitOf(l, p, token)
              + (if p.tickLower <= l.pool.tickCurrent < p.tickUpper then UnitShift(token, l.pool.sqrtPrice, l'.pool.sqrtPrice) else 0.0)
  {
    PriceIsMonotone(l.table, p.tickLower, p.tickUpper);
    if p.tickLower <= l.pool.tickCurrent < p.tickUpper {
      UnitInRangeShifts(token, l.pool.sqrtPrice, l'.pool.sqrtPrice, Price(l.table, p.tickLower), Price(l.table, p.tickUpper));
    }
  }

  lemma BackingOfRangeShifts(l: Ledger, l': Ledger, j: nat, token: int)
    requires ValidTable(l.table) && StructureInv(l) && j < |l.protocols| && 0 <= token < 2
    requires l'.table == l.table && l'.protocols == l.protocols && l'.personals == l.personals
    requires 0 < l.pool.sqrtPrice && 0 < l'.pool.sqrtPrice && NoTickBetween(l, l'.pool.sqrtPrice)
    ensures Backing(l', token)[j] == Backing(l, token)[j]
              + Share(Terms(l.protocols, Active(l.pool.tickCurrent))[j], UnitShift(token, l.pool.sqrtPrice, l'.pool.sqrtPrice))
  {
    hide UnitOf, UnitShift, LiquidityInv, GrowthInv, NamedSlots;
    var p := l.protocols[j];
    if p.liquidity > 0 {
      LiveRangeIsInitialized(l, j);
      UnitOfRangeShifts(l, l', p, token);
      ShareOfSum(p.liquidity, UnitOf(l, p, token), UnitShift(token, l.pool.sqrtPrice, l'.pool.sqrtPrice));
    }
  }

  lemma UnitInRangeShifts(token: int, x: nat, y: nat, low: nat, high: nat)
    requires 0 < low <= x <= high && low <= y <= high && 0 <= token < 2
    ensures Unit(token, y, low, high) == Unit(token, x, low, high) + UnitShift(token, x, y)
  {
    assert (y - low) as real == (x - low) as real + (y - x) as real;
    var q := Q64 as real;
    assert ((x - low) as real + (y - x) as real) / q == (x - low) as real / q + (y - x) as real / q;
  }

  lemma BackingShifts(l: Ledger, l': Ledger, token: int)
    requires ValidTable(l.table) && StructureInv(l) && 0 <= token < 2
    requires l'.table == l.table && l'.protocols == l.protocols && l'.personals == l.personals
    requires 0 < l.pool.sqrtPrice && 0 < l'.pool.sqrtPrice && NoTickBetween(l, l'.pool.sqrtPrice)
    ensures RealSum(Backing(l', token)) == RealSum(Backing(l, token))
              + Share(l.pool.liquidity, UnitShift(token, l.pool.sqrtPrice, l'.pool.sqrtPrice))
  {
    var w := Terms(l.protocols, Active(l.pool.tickCurrent));
    forall j | 0 <= j < |l.protocols|
      ensures Backing(l', token)[j] == Backing(l, token)[j] + Share(w[j], UnitShift(token, l.pool.sqrtPrice, l'.pool.sqrtPrice))
    {
      BackingOfRangeShifts(l, l', j, token);
    }
    RealSumToShift(Backing(l, token), Backing(l', token), w, UnitShift(token, l.pool.sqrtPrice, l'.pool.sqrtPrice), |w|);
  }

  /** A swap step pays for the backing it adds on the input side and takes no more than it frees on
      the output side. */
  lemma StepCoversShift(x: int, y: int, from: nat, to: nat, liquidity: nat, zeroForOne: bool)
    requires SwapMath.Towards(from, to, zeroForOne)
    requires SwapMath.CostsExactly(x, from, to, liquidity, zeroForOne)
    requires var gap := SwapMath.Gap(from, to);
             if zeroForOne then y * Q64 <= liquidity * gap else y * (from * to) <= liquidity * Q64 * gap
    ensures Share(liquidity, UnitShift(if zeroForOne then 0 else 1, from, to)) <= x as real
    ensures Share(liquidity, UnitShift(if zeroForOne then 1 else 0, from, to)) <= (-y) as real
  {
    if zeroForOne {
      assert from * to == to * from;
      CoversInverse(x, liquidity, to, from);
      assert liquidity * (to - from) == -(liquidity * (from - to));
      assert (-y) * Q64 == -(y * Q64);
      CoversGap(-y, liquidity, to - from);
    } else {
      CoversGap(x, liquidity, to - from);
      assert liquidity * Q64 * (from - to) == -(liquidity * Q64 * (to - from));
      assert (-y) * (from * to) == -(y * (from * to));
      CoversInverse(-y, liquidity, to, from);
    }
  }
}
