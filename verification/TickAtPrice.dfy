/** programs/amm/src/libraries/tick_math.rs: the tick of a price, from its logarithm. The two candidates the logarithm
    leaves always bracket the price, so the result is the documented one. */
module TickAtPrice {
  import opened Wrappers
  import opened FullMath
  import opened PoolTypes
  import opened Bits
  import opened Invariants
  import opened SwapPath
  import opened TickMath
  import opened Logarithms
  import BigNum

  /** 2^16 / log2(sqrt(1.0001)), and the margins that make the two candidates. */
  const LOG_FACTOR: int := 59543866431248
  const LOW_MARGIN: int := 184467440737095516
  const HIGH_MARGIN: int := 15793534762490258745

  /** The logarithm of the price over 2^64, in units of 2^-32. */
  function Log32(p: nat): int
    requires 0 < p
  {
    (Width(p) - 1 - 64) * 0x1_0000_0000 + Fraction(p) * 0x1_0000
  }

  /** The logarithm to base sqrt(1.0001), less and plus its margin, rounded down. */
  function LowTick(p: nat): int
    requires 0 < p
  {
    (Log32(p) * LOG_FACTOR - LOW_MARGIN) / Q64
  }

  function HighTick(p: nat): int
    requires 0 < p
  {
    (Log32(p) * LOG_FACTOR + HIGH_MARGIN) / Q64
  }

  // -----------------------------------------------------------------------------------------
  // What the factors take off, in ticks

  /** A tick at bit `i`, in units of 2^-60 ticks. */
  function Weight(i: nat): int {
    if i == 0 then 0x1000_0000_0000_0000 else 2 * Weight(i - 1)
  }

  lemma LastWeight()
    ensures Weight(18) == 0x4000_0000_0000_0000_0000
  {
    assert Weight(4) == 0x1_0000_0000_0000_0000;
    assert Weight(8) == 0x10_0000_0000_0000_0000;
    assert Weight(12) == 0x100_0000_0000_0000_0000;
    assert Weight(16) == 0x1000_0000_0000_0000_0000;
  }

  lemma {:induction false} FallIsWeight(i: nat)
    requires i <= 18
    ensures Weight(i) - 2 * LOG_FACTOR <= Fall(i) * LOG_FACTOR <= Weight(i)
    decreases 18 - i
  {
    if i == 18 {
      LastWeight();
    } else {
      FallIsWeight(i + 1);
      FallsHalve(i);
    }
  }

  /** Numbers with no bit from `19 - i` on. */
  function Room(i: nat): nat
    decreases 19 - i
  {
    if i >= 19 then 1 else 2 * Room(i + 1)
  }

  /** Together the factors take off as many ticks as their bits say, to within two units of 2^-28 each. */
  lemma {:induction false} FallIsTicks(i: nat, a: nat)
    requires i <= 19 && a < Room(i)
    ensures var d := FallFrom(i, a) * LOG_FACTOR;
            a * Weight(i) - 2 * LOG_FACTOR * (19 - i) <= d <= a * Weight(i)
    decreases 19 - i
  {
    hide Fall, Weight, FallFrom, Room;
    if i < 19 {
      HalfRoom(i, a);
      var h := a / 2;
      FallIsTicks(i + 1, h);
      FallIsWeight(i);
      NextWeight(i);
      HalvesTimes(a, Weight(i));
      MoreFall(i, a);
      AddTicks(a % 2 == 1, a * Weight(i), Weight(i), h * Weight(i + 1), Fall(i) * LOG_FACTOR, FallFrom(i + 1, h) * LOG_FACTOR, 18 - i);
    } else {
      NoRoom(a);
    }
  }

  lemma HalfRoom(i: nat, a: nat)
    requires i < 19 && a < Room(i)
    ensures a / 2 < Room(i + 1)
  {}

  lemma NoRoom(a: nat)
    requires a < Room(19)
    ensures a == 0 && FallFrom(19, a) == 0
  {}

  lemma AddTicks(bit: bool, aw: int, w: int, hw: int, f: int, d: int, left: int)
    requires aw == (if bit then w else 0) + hw && 0 <= left
    requires w - 2 * LOG_FACTOR <= f <= w && hw - 2 * LOG_FACTOR * left <= d <= hw
    ensures aw - 2 * LOG_FACTOR * (left + 1) <= (if bit then f else 0) + d <= aw
  {}

  lemma NextWeight(i: nat)
    ensures Weight(i + 1) == 2 * Weight(i)
  {}

  lemma MoreFall(i: nat, a: nat)
    requires i < 19
    ensures FallFrom(i, a) * LOG_FACTOR == (if a % 2 == 1 then Fall(i) * LOG_FACTOR else 0) + FallFrom(i + 1, a / 2) * LOG_FACTOR
  {
    hide Fall;
  }

  lemma HalvesTimes(a: nat, w: int)
    ensures a * w == (if a % 2 == 1 then w else 0) + (a / 2) * (2 * w)
  {
    assert a == a % 2 + 2 * (a / 2);
  }

  lemma TicksFit(a: nat)
    requires a <= MAX_TICK
    ensures a * 0x1000_0000_0000_0000 - 38 * LOG_FACTOR <= FallFrom(0, a) * LOG_FACTOR <= a * 0x1000_0000_0000_0000
    ensures FallFrom(0, a) + 76 <= 64 * UNIT
  {
    assert Room(15) == 16;
    assert Room(11) == 256;
    assert Room(7) == 4096;
    assert Room(3) == 65536;
    assert Room(0) == 524288;
    FallIsTicks(0, a);
  }

  // -----------------------------------------------------------------------------------------
  // The logarithm of the price of a tick

  /** Bounds on it, over 2^64 and in units of 2^-28. */
  function MostLog(t: int): int
    requires MIN_TICK <= t <= MAX_TICK
  {
    if t <= 0 then -(FallFrom(0, -t) as int) else FallFrom(0, t) + 76
  }

  function LeastLog(t: int): int
    requires MIN_TICK <= t <= MAX_TICK
  {
    if t <= 0 then -(FallFrom(0, -t) as int) - 76 else FallFrom(0, t)
  }

  /** Below and at tick 0 the price is the product itself. */
  lemma LowPriceWithin(a: nat)
    requires a <= MAX_TICK
    ensures FallFrom(0, a) + 76 <= 64 * UNIT
    ensures Tower(Ratio(a)) <= Pow2(64 * UNIT - FallFrom(0, a))
    ensures Pow2(64 * UNIT - FallFrom(0, a) - 76) <= Tower(Ratio(a))
  {
    hide FallFrom, Pow2, PowerTower, RatioFrom;
    RatioIsLarge(a);
    TicksFit(a);
    RatioWithin(Q64, 0, a);
    TowerOfQ64();
    var t, d := Tower(Ratio(a)), FallFrom(0, a);
    Pow2Sum(64 * UNIT - d, d);
    Pow2Sum(d, 0);
    Pow2Sum(64 * UNIT - d - 76, d + 76);
    Pow2Sum(d + 76, 0);
    MulLeCancel(t, Pow2(64 * UNIT - d), Pow2(d));
    MulLeCancel(Pow2(64 * UNIT - d - 76), t, Pow2(d + 76));
  }

  lemma RatioIsLarge(a: nat)
    requires a <= MAX_TICK
    ensures MIN_SQRT_PRICE <= Ratio(a) && MANY <= Ratio(a)
  {
    hide RatioFrom;
    if a == 0 { RatioOfZero(); }
    ConcreteTableIsValid();
    var t: int := a;
    PriceIsMonotone(ConcreteTable(), -t, MIN_TICK);
  }

  /** Above it is the reciprocal. */
  lemma HighPriceWithin(t: nat)
    requires 0 < t <= MAX_TICK
    ensures Tower(SqrtPriceAt(t)) <= Pow2(64 * UNIT + FallFrom(0, t) + 76)
    ensures Pow2(64 * UNIT + FallFrom(0, t)) <= 2 * Tower(SqrtPriceAt(t))
  {
    hide FallFrom, Pow2, PowerTower, RatioFrom;
    RatioIsLarge(t);
    TicksFit(t);
    RatioWithin(Q64, 0, t);
    TowerOfQ64();
    var p, r, d := SqrtPriceAt(t), Ratio(t), FallFrom(0, t);
    PriceIsLarge(t);
    ReciprocalIs(p, r);
    TowerGrows(p * r, Pow2(128), PRECISION);
    TowerOfPower(128);
    WideIsLimit();
    TowerProduct(p, r, PRECISION);
    NearlyLe(U128_LIMIT, p * r);
    Reciprocals(Tower(p), Tower(r), d);
  }

  lemma PriceIsLarge(t: nat)
    requires 0 < t <= MAX_TICK
    ensures 0 < Ratio(t) && MANY <= SqrtPriceAt(t) && SqrtPriceAt(t) == (U128_LIMIT - 1) / Ratio(t)
  {
    hide RatioFrom;
    RatioIsPositive(t);
    ConcreteTableIsValid();
    PriceIsMonotone(ConcreteTable(), t, MIN_TICK);
  }

  lemma ReciprocalIs(p: nat, r: nat)
    requires 0 < r && MANY <= p && p == (U128_LIMIT - 1) / r
    ensures p * r <= U128_LIMIT && U128_LIMIT * MANY <= (p * r) * (MANY + 1)
  {
    var n := U128_LIMIT - 1;
    assert n == p * r + n % r;
    MulLe(MANY, p, r);
    assert U128_LIMIT <= p * r + r;
    assert U128_LIMIT * MANY <= (p * r + r) * MANY by { MulLe(U128_LIMIT, p * r + r, MANY); }
    assert (p * r + r) * MANY == (p * r) * MANY + r * MANY;
    assert MANY * r <= p * r;
  }

  lemma Reciprocals(t: nat, u: nat, d: nat)
    requires t * u <= Pow2(128 * UNIT) <= 2 * (t * u)
    requires u * Pow2(d) <= Pow2(64 * UNIT) <= u * Pow2(d + 76)
    ensures t <= Pow2(64 * UNIT + d + 76) && Pow2(64 * UNIT + d) <= 2 * t
  {
    hide Pow2;
    var w := Pow2(64 * UNIT);
    Pow2Sum(64 * UNIT, 64 * UNIT);
    Pow2Sum(64 * UNIT, d + 76);
    Pow2Sum(64 * UNIT, d);
    ReciprocalBelow(t, u, w, Pow2(d + 76));
    ReciprocalAbove(t, u, w, Pow2(d));
  }

  lemma ReciprocalBelow(t: nat, u: nat, w: nat, q: nat)
    requires t * u <= w * w && w <= u * q && 0 < w
    ensures t <= w * q
  {
    MulLe(w, u * q, t);
    MulLe(t * u, w * w, q);
    assert (u * q) * t == (t * u) * q;
    assert (w * w) * q == (w * q) * w;
    MulLeCancel(t, w * q, w);
  }

  lemma ReciprocalAbove(t: nat, u: nat, w: nat, q: nat)
    requires w * w <= 2 * (t * u) && u * q <= w && 0 < w
    ensures w * q <= 2 * t
  {
    MulLe(w * w, 2 * (t * u), q);
    MulLe(u * q, w, t);
    assert (2 * (t * u)) * q == 2 * ((u * q) * t);
    assert (w * w) * q == (w * q) * w;
    MulLeCancel(w * q, 2 * t, w);
  }

  /** The price of a tick is 1.0001 to the power of half the tick, to within 76 units of the logarithm: about
      a two-hundredth of a tick. */
  lemma PriceWithin(t: int)
    requires MIN_TICK <= t <= MAX_TICK
    ensures -64 * UNIT <= LeastLog(t) <= MostLog(t)
    ensures Tower(SqrtPriceAt(t)) <= Pow2(64 * UNIT + MostLog(t)) && Pow2(64 * UNIT + LeastLog(t)) <= 2 * Tower(SqrtPriceAt(t))
    ensures MostLog(t) * LOG_FACTOR <= t * 0x1000_0000_0000_0000 + 76 * LOG_FACTOR
    ensures t * 0x1000_0000_0000_0000 - 76 * LOG_FACTOR <= LeastLog(t) * LOG_FACTOR
  {
    hide FallFrom, Pow2, PowerTower, RatioFrom;
    if t <= 0 {
      TicksFit(-t);
      LowPriceWithin(-t);
    } else {
      TicksFit(t);
      HighPriceWithin(t);
    }
  }

  // -----------------------------------------------------------------------------------------
  // The candidates

  /** 2^16 times the logarithm of the price over 2^64, cut to an integer. */
  predicate Leads(p: nat, e: nat) {
    Pow2(e) <= PowerTower(p, BIT_PRECISION) < Pow2(e + 2)
  }

  lemma LeadsTower(p: nat, e: nat)
    requires Leads(p, e)
    ensures Pow2(e * 0x1000) <= Tower(p) < Pow2((e + 2) * 0x1000)
  {
    hide Shifted, PowerTower;
    TowerTwice(p, BIT_PRECISION, 12);
    TowerGrows(Pow2(e), PowerTower(p, BIT_PRECISION), 12);
    TowerGrows(PowerTower(p, BIT_PRECISION), Pow2(e + 2), 12);
    TowerOfPow2(e, 12);
    TowerOfPow2(e + 2, 12);
    UnitIsPow2();
    ShiftedIsProduct(e, 12);
    ShiftedIsProduct(e + 2, 12);
  }

  /** The logarithm less its margin is no more than the tick. */
  lemma LowIsNotAbove(p: nat, e: nat, t: int)
    requires Leads(p, e) && MIN_TICK <= t <= MAX_TICK
    requires t * Q64 + LOW_MARGIN <= (e - 64 * 0x1_0000) * 0x1_0000 * LOG_FACTOR
    ensures SqrtPriceAt(t) <= p
  {
    hide Pow2, PowerTower, SqrtPriceAt, MostLog, LeastLog;
    LeadsTower(p, e);
    PriceWithin(t);
    if p < SqrtPriceAt(t) {
      TowerGrows(p, SqrtPriceAt(t), PRECISION);
      var m := 64 * UNIT + MostLog(t);
      Pow2Orders(m, e * 0x1000);
    }
  }

  /** The logarithm plus its margin is more than the tick below. */
  lemma HighIsAbove(p: nat, e: nat, t: int)
    requires Leads(p, e) && MIN_TICK <= t <= MAX_TICK
    requires (e - 64 * 0x1_0000) * 0x1_0000 * LOG_FACTOR + HIGH_MARGIN < t * Q64
    ensures p < SqrtPriceAt(t)
  {
    hide Pow2, PowerTower, SqrtPriceAt, MostLog, LeastLog;
    LeadsTower(p, e);
    PriceWithin(t);
    if SqrtPriceAt(t) <= p {
      TowerGrows(SqrtPriceAt(t), p, PRECISION);
      var g := 64 * UNIT + LeastLog(t);
      Pow2Sum((e + 2) * 0x1000, 1);
      PowerOne();
      Pow2Orders((e + 2) * 0x1000 + 1, g);
    }
  }

  /** Whichever of the two is taken. */
  function Taken(p: nat, low: int, high: int): int
    requires low != high ==> MIN_TICK <= high <= MAX_TICK
  {
    if low == high then low else if SqrtPriceAt(high) <= p then high else low
  }

  /** The two candidates never miss: the higher one is a tick, and the one taken is the greatest tick whose price
      is at most the given one. */
  lemma CandidatesHit(p: nat, e: nat, low: int, high: int)
    requires MIN_SQRT_PRICE <= p < MAX_SQRT_PRICE && Leads(p, e)
    requires var x := (e - 64 * 0x1_0000) * 0x1_0000 * LOG_FACTOR;
             low * Q64 <= x - LOW_MARGIN && x + HIGH_MARGIN < high * Q64 + Q64 && low <= high <= low + 1
    ensures MIN_TICK <= high <= MAX_TICK
    ensures TickAtSqrtPrice(ConcreteTable(), p) == Ok(Taken(p, low, high))
  {
    hide SqrtPriceAt, PowerTower, Pow2, Leads, TickAtSqrtPrice, ValidTable;
    var table := ConcreteTable();
    ConcreteTableIsValid();
    TickAtSqrtPriceIs(table, p);
    var t := TickAtSqrtPrice(table, p).value;
    if high < t {
      var u := if high + 1 < MIN_TICK then MIN_TICK else high + 1;
      HighIsAbove(p, e, u);
      PriceIsMonotone(table, t, u);
    }
    if t < low {
      var u := if low > MAX_TICK then MAX_TICK else low;
      LowIsNotAbove(p, e, u);
      PriceIsMonotone(table, u, t + 1);
    }
    assert low <= t <= high;
  }

  lemma OutOfRange(table: PriceTable, p: nat)
    requires !(MIN_SQRT_PRICE <= p < MAX_SQRT_PRICE)
    ensures TickAtSqrtPrice(table, p) == Err(SqrtPriceX64)
  {}

  /** `get_tick_at_sqrt_price`. It errs exactly outside the price range; within it the result is the greatest tick
      whose price is at most the given price. The candidates stay well within i32. */
  method GetTickAtSqrtPrice(p: nat) returns (r: Result<int>)
    ensures r.Err? <==> !(MIN_SQRT_PRICE <= p < MAX_SQRT_PRICE)
    ensures r.Ok? ==> MIN_TICK <= r.value < MAX_TICK && SqrtPriceAt(r.value) <= p < SqrtPriceAt(r.value + 1)
    ensures r == TickAtSqrtPrice(ConcreteTable(), p)
    ensures r.Ok? ==> -0x8000_0000 <= LowTick(p) <= HighTick(p) <= LowTick(p) + 1 < 0x8000_0000
  {
    hide SqrtPriceAt, Shifted, Width, PowerTower, TickAtSqrtPrice, ConcreteTable, FractionFrom, Normalized;
    ConcreteTableIsValid();
    TickAtSqrtPriceIs(ConcreteTable(), p);
    if !(MIN_SQRT_PRICE <= p < MAX_SQRT_PRICE) {
      OutOfRange(ConcreteTable(), p);
      return Err(SqrtPriceX64);
    }
    var msb, fraction := Log2(p);
    SixteenBits();
    ShiftedIsProduct(msb, BIT_PRECISION);
    var integer: int := msb;
    var log32 := (integer - 64) * 0x1_0000_0000 + fraction * 0x1_0000;
    var low := (log32 * LOG_FACTOR - LOW_MARGIN) / Q64;
    var high := (log32 * LOG_FACTOR + HIGH_MARGIN) / Q64;
    CandidatesHit(p, msb * 0x1_0000 + fraction, low, high);
    if low == high {
      return Ok(low);
    }
    var highPrice := GetSqrtPriceAtTick(high);
    return Ok(if highPrice.value <= p then high else low);
  }

  /** From a tick to its price and back. */
  lemma TickOfItsPrice(t: int)
    requires MIN_TICK <= t < MAX_TICK
    ensures TickAtSqrtPrice(ConcreteTable(), SqrtPriceAt(t)) == Ok(t)
  {
    hide SqrtPriceAt;
    ConcreteTableIsValid();
    PriceRises(t);
    TickOfPrice(ConcreteTable(), SqrtPriceAt(t), t);
  }

  lemma SixteenBits()
    ensures Pow2(16) == 0x1_0000
  {
    hide Shifted;
    BigNum.ShiftedByByte(1);
    BigNum.ShiftedByByte(Pow2(8));
    ShiftedTwice(1, 8, 8);
  }
}
