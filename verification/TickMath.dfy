/** programs/amm/src/libraries/tick_math.rs: the price of a tick as a product of up to 19 truncated
    factors, and the logarithm loop of the inverse. */
module TickMath {
  import opened Wrappers
  import opened FullMath
  import opened PoolTypes
  import opened Bits
  import BigNum

  /** 2^64 / 1.0001^(2^(i - 1)) */
  function Factor(i: nat): nat {
    if i == 0 then 0xfffcb933bd6fb800
    else if i == 1 then 0xfff97272373d4000
    else if i == 2 then 0xfff2e50f5f657000
    else if i == 3 then 0xffe5caca7e10f000
    else if i == 4 then 0xffcb9843d60f7000
    else if i == 5 then 0xff973b41fa98e800
    else if i == 6 then 0xff2ea16466c9b000
    else if i == 7 then 0xfe5dee046a9a3800
    else if i == 8 then 0xfcbe86c7900bb000
    else if i == 9 then 0xf987a7253ac65800
    else if i == 10 then 0xf3392b0822bb6000
    else if i == 11 then 0xe7159475a2caf000
    else if i == 12 then 0xd097f3bdfd2f2000
    else if i == 13 then 0xa9f746462d9f8000
    else if i == 14 then 0x70d869a156f31c00
    else if i == 15 then 0x31be135f97ed3200
    else if i == 16 then 0x9aa508b5b85a500
    else if i == 17 then 0x5d6af8dedc582c
    else 0x2216e584f5fa
  }

  /** `(ratio * factor) >> 64` */
  function Scaled(ratio: nat, i: nat): nat {
    (ratio * Factor(i)) / Q64
  }

  /** The factors from number `i` on, for the bits of `a`. */
  function RatioFrom(ratio: nat, i: nat, a: nat): nat
    requires i <= 19
    decreases 19 - i
  {
    if i == 19 then ratio else RatioFrom(if a % 2 == 1 then Scaled(ratio, i) else ratio, i + 1, a / 2)
  }

  /** The price of tick -a. */
  function Ratio(a: nat): nat {
    RatioFrom(Q64, 0, a)
  }

  /** `get_sqrt_price_at_tick`, within the tick range */
  function SqrtPriceAt(tick: int): nat
    requires MIN_TICK <= tick <= MAX_TICK
  {
    RatioIsPositive(if tick < 0 then -tick else tick);
    if tick > 0 then (U128_LIMIT - 1) / Ratio(tick) else Ratio(-tick)
  }

  // -----------------------------------------------------------------------------------------
  // Products only shrink

  lemma ScaledIs(ratio: nat, i: nat)
    ensures var p := ratio * Factor(i); Scaled(ratio, i) * Q64 <= p < Scaled(ratio, i) * Q64 + Q64
    ensures Scaled(ratio, i) <= ratio
  {
    var p := ratio * Factor(i);
    assert Factor(i) <= Q64;
    hide Factor;
    MulLe(Factor(i), Q64, ratio);
    assert p <= ratio * Q64;
  }

  lemma {:induction false} RatioShrinks(ratio: nat, i: nat, a: nat)
    requires i <= 19
    ensures RatioFrom(ratio, i, a) <= ratio
    decreases 19 - i
  {
    if i < 19 {
      hide Scaled;
      ScaledIs(ratio, i);
      RatioShrinks(if a % 2 == 1 then Scaled(ratio, i) else ratio, i + 1, a / 2);
    }
  }

  // -----------------------------------------------------------------------------------------
  // Neighbouring ticks: with k trailing ones, the first k factors against the factor of bit k.

  /** The product of the first `k` factors. */
  function Ones(k: nat): nat {
    if k == 0 then Q64 else Scaled(Ones(k - 1), k - 1)
  }

  /** Those products, worked out. */
  function OnesAt(i: nat): nat {
    if i == 0 then 18446744073709551616
    else if i == 1 then 18445821805675395072
    else if i == 2 then 18443977407934601305
    else if i == 3 then 18440289165698571674
    else if i == 4 then 18432914893692470403
    else if i == 5 then 18418175195415540256
    else if i == 6 then 18388731148799056322
    else if i == 7 then 18329984191681429728
    else if i == 8 then 18213052719148865012
    else if i == 9 then 17981422819357952666
    else if i == 10 then 17526963021261866635
    else if i == 11 then 16652210978343902665
    else if i == 12 then 15031501797420854576
    else if i == 13 then 12247947330324981103
    else if i == 14 then 8131771826986601598
    else if i == 15 then 3584502866427774895
    else if i == 16 then 696492473860388424
    else if i == 17 then 26296104664138151
    else 37483609361155
  }

  lemma OnesAtStep(i: nat)
    requires i < 18
    ensures (OnesAt(i) * Factor(i)) / Q64 == OnesAt(i + 1)
  {}

  lemma {:induction false} OnesIs(k: nat)
    requires k < 19
    ensures Ones(k) == OnesAt(k)
  {
    hide Factor, OnesAt;
    if k == 0 {
      assert OnesAt(0) == Q64 by { OnesAtZero(); }
    } else {
      OnesIs(k - 1);
      OnesAtStep(k - 1);
    }
  }

  lemma OnesAtZero()
    ensures OnesAt(0) == Q64
  {}

  /** Just above 2^32 / 20000: what the factors keep apart, in units of 2^-32. */
  const GAP: nat := 200000

  /** `x` exceeds `y` by at least `gap` parts in 2^32. */
  predicate Apart(x: nat, y: nat, gap: nat) {
    (x - y) * 0x1_0000_0000 >= gap * y
  }

  lemma FactorsApart(k: nat)
    requires k < 19
    ensures Apart(Ones(k), Factor(k), GAP)
  {
    hide Ones, Scaled, Factor, OnesAt;
    OnesIs(k);
    TableApart(k);
  }

  lemma TableApart(k: nat)
    requires k < 19
    ensures Apart(OnesAt(k), Factor(k), GAP)
  {}

  /** One more common factor costs at most one part in 2^32, as long as the smaller product stays
      above 2^32. */
  lemma ScaledApart(x: nat, y: nat, i: nat, gap: nat)
    requires Apart(x, y, gap) && 0 < gap && Scaled(y, i) >= 0x1_0000_0000
    ensures Apart(Scaled(x, i), Scaled(y, i), gap - 1)
  {
    var f, x', y' := Factor(i), Scaled(x, i), Scaled(y, i);
    ScaledIs(x, i);
    ScaledIs(y, i);
    hide Factor, Scaled;
    GapScales(x, y, f, x', y', gap);
  }

  lemma GapScales(x: int, y: int, f: nat, x': int, y': int, gap: int)
    requires (x - y) * 0x1_0000_0000 >= gap * y && 0 < gap
    requires x * f < x' * Q64 + Q64 && y' * Q64 <= y * f && y' >= 0x1_0000_0000
    ensures (x' - y') * 0x1_0000_0000 >= (gap - 1) * y'
  {
    MulLe(gap * y, (x - y) * 0x1_0000_0000, f);
    assert ((x - y) * 0x1_0000_0000) * f == (x * f - y * f) * 0x1_0000_0000;
    assert (gap * y) * f == gap * (y * f);
    MulLe(y' * Q64, y * f, gap);
    assert (y' * Q64) * gap == (gap * y') * Q64;
    assert (gap - 1) * y' == gap * y' - y';
    MulLtCancel((gap - 1) * y', (x' - y') * 0x1_0000_0000 + 1, Q64);
  }

  lemma {:induction false} CommonFactorsKeepApart(x: nat, y: nat, i: nat, a: nat, gap: nat)
    requires i <= 19 && Apart(x, y, gap) && gap > 19 - i && RatioFrom(y, i, a) >= 0x1_0000_0000
    ensures Apart(RatioFrom(x, i, a), RatioFrom(y, i, a), gap - (19 - i))
    decreases 19 - i
  {
    hide Scaled;
    if i < 19 {
      if a % 2 == 1 {
        RatioShrinks(Scaled(y, i), i + 1, a / 2);
        ScaledApart(x, y, i, gap);
        CommonFactorsKeepApart(Scaled(x, i), Scaled(y, i), i + 1, a / 2, gap - 1);
      } else {
        CommonFactorsKeepApart(x, y, i + 1, a / 2, gap);
        WeakerGap(RatioFrom(x, i + 1, a / 2), RatioFrom(y, i + 1, a / 2), gap - (19 - i - 1), gap - (19 - i));
      }
    }
  }

  lemma WeakerGap(x: nat, y: nat, gap: nat, less: nat)
    requires Apart(x, y, gap) && less <= gap
    ensures Apart(x, y, less)
  {
    MulLe(less, gap, y);
  }

  /** One step apart in ticks, at least 199981 parts in 2^32 apart in price. */
  lemma {:induction false} SuccessorApart(i: nat, a: nat)
    requires i < 19 && a + 1 < Pow2(19 - i) && RatioFrom(Q64, i, a + 1) >= 0x1_0000_0000
    ensures Apart(RatioFrom(Ones(i), i, a), RatioFrom(Q64, i, a + 1), GAP - 19)
    decreases 19 - i
  {
    hide Factor, Scaled, Ones;
    if a % 2 == 1 {
      assert (a + 1) / 2 == a / 2 + 1 && (a + 1) % 2 == 0;
      PowHalf(19 - i);
      OneMore(i);
      SuccessorApart(i + 1, a / 2);
    } else {
      assert (a + 1) / 2 == a / 2 && (a + 1) % 2 == 1;
      FactorsApart(i);
      ScaledQ64(i);
      CommonFactorsKeepApart(Ones(i), Factor(i), i + 1, a / 2, GAP);
      WeakerGap(RatioFrom(Ones(i), i + 1, a / 2), RatioFrom(Factor(i), i + 1, a / 2), GAP - (19 - i - 1), GAP - 19);
    }
  }

  lemma PowHalf(n: nat)
    requires 0 < n
    ensures Pow2(n) == 2 * Pow2(n - 1) && (Pow2(n) > 2 ==> n > 1)
  {}

  lemma OneMore(i: nat)
    ensures Ones(i + 1) == Scaled(Ones(i), i)
  {}

  lemma ScaledQ64(i: nat)
    ensures Scaled(Q64, i) == Factor(i)
  {}

  /** The last tick's product before its factor number `i`, worked out. */
  function LastAt(i: nat): nat {
    if i == 0 then 18446744073709551616
    else if i == 1 then 18446744073709551616
    else if i == 2 then 18446744073709551616
    else if i == 3 then 18443055278223355904
    else if i == 4 then 18443055278223355904
    else if i == 5 then 18428307471288122970
    else if i == 6 then 18398847226801874084
    else if i == 7 then 18340067951587048657
    else if i == 8 then 18223072152272633034
    else if i == 9 then 18223072152272633034
    else if i == 10 then 18223072152272633034
    else if i == 11 then 17313578044588124205
    else if i == 12 then 17313578044588124205
    else if i == 13 then 17313578044588124205
    else if i == 14 then 17313578044588124205
    else if i == 15 then 7631863196528592884
    else if i == 16 then 1482921196046239949
    else if i == 17 then 1482921196046239949
    else if i == 18 then 2113820261058665
    else 4295048016
  }

  /** What is left of the last tick's bits there. */
  function RestAt(i: nat): nat {
    if i == 0 then 443636
    else if i == 1 then 221818
    else if i == 2 then 110909
    else if i == 3 then 55454
    else if i == 4 then 27727
    else if i == 5 then 13863
    else if i == 6 then 6931
    else if i == 7 then 3465
    else if i == 8 then 1732
    else if i == 9 then 866
    else if i == 10 then 433
    else if i == 11 then 216
    else if i == 12 then 108
    else if i == 13 then 54
    else if i == 14 then 27
    else if i == 15 then 13
    else if i == 16 then 6
    else if i == 17 then 3
    else if i == 18 then 1
    else 0
  }

  lemma LastStep(i: nat)
    requires i < 19
    ensures LastAt(i + 1) == if RestAt(i) % 2 == 1 then (LastAt(i) * Factor(i)) / Q64 else LastAt(i)
    ensures RestAt(i + 1) == RestAt(i) / 2
  {}

  lemma {:induction false} LastFrom(i: nat)
    requires i <= 19
    ensures RatioFrom(LastAt(i), i, RestAt(i)) == LastAt(19)
    decreases 19 - i
  {
    hide Factor, LastAt, RestAt;
    if i < 19 {
      LastStep(i);
      LastFrom(i + 1);
    }
  }

  lemma LastRatio()
    ensures Ratio(MAX_TICK) == MIN_SQRT_PRICE
  {
    hide Factor, RatioFrom;
    LastFrom(0);
  }

  // -----------------------------------------------------------------------------------------
  // All ticks

  /** No product falls below the last one, let alone to zero. */
  lemma {:induction false} RatioAtLeastLast(a: nat)
    requires a <= MAX_TICK
    ensures Ratio(a) >= MIN_SQRT_PRICE
    decreases MAX_TICK - a
  {
    if a == MAX_TICK {
      LastRatio();
    } else {
      RatioAtLeastLast(a + 1);
      RatioFalls(a);
    }
  }

  lemma RatioFalls(a: nat)
    requires a < MAX_TICK && Ratio(a + 1) >= MIN_SQRT_PRICE
    ensures Apart(Ratio(a), Ratio(a + 1), GAP - 19) && Ratio(a) > Ratio(a + 1)
  {
    hide Scaled, Factor;
    NineteenBits();
    assert Ones(0) == Q64;
    SuccessorApart(0, a);
    ApartIsMore(Ratio(a), Ratio(a + 1));
  }

  lemma NineteenBits()
    ensures Pow2(19) == 524288
  {
    hide Shifted;
    Doubling(0, 1); Doubling(1, 2); Doubling(2, 4); Doubling(3, 8); Doubling(4, 16); Doubling(5, 32); Doubling(6, 64);
    Doubling(7, 128); Doubling(8, 256); Doubling(9, 512); Doubling(10, 1024); Doubling(11, 2048); Doubling(12, 4096);
    Doubling(13, 8192); Doubling(14, 16384); Doubling(15, 32768); Doubling(16, 65536); Doubling(17, 131072);
    Doubling(18, 262144);
  }

  lemma Doubling(k: nat, v: nat)
    requires k > 0 ==> Pow2(k) == v
    requires k == 0 ==> v == 1
    ensures Pow2(k + 1) == 2 * v
  {}

  lemma ApartIsMore(x: nat, y: nat)
    requires Apart(x, y, GAP - 19) && 0 < y
    ensures x > y
  {}

  lemma RatioIsPositive(a: nat)
    requires a <= MAX_TICK
    ensures 0 < Ratio(a) <= Q64
  {
    RatioAtLeastLast(a);
    RatioShrinks(Q64, 0, a);
  }

  // -----------------------------------------------------------------------------------------
  // The table of prices

  /** Quotients of numbers that far apart differ. */
  lemma QuotientsDiffer(x: nat, y: nat)
    requires 0 < y && Apart(x, y, GAP - 19) && x <= Q64
    ensures (U128_LIMIT - 1) / x < (U128_LIMIT - 1) / y
  {
    var m, q := U128_LIMIT - 1, (U128_LIMIT - 1) / x;
    ApartIsMore(x, y);
    assert m == q * x + m % x;
    if q < 0x1_0000_0000 { MulLe(q + 1, 0x1_0000_0000, x); }
    MulLe(0x1_0000_0000, q, x - y);
    assert q * (x - y) == q * x - q * y;
    assert (q + 1) * y == q * y + y;
    AtLeastQuotient(m, y, q + 1);
  }

  lemma AtLeastQuotient(m: nat, y: nat, k: nat)
    requires 0 < y && k * y <= m
    ensures k <= m / y
  {
    var e := m / y;
    assert m == e * y + m % y;
    if e < k { MulLe(e + 1, k, y); }
  }

  /** The price rises with every tick. */
  lemma PriceRises(tick: int)
    requires MIN_TICK <= tick < MAX_TICK
    ensures SqrtPriceAt(tick) < SqrtPriceAt(tick + 1)
  {
    hide RatioFrom, Factor;
    var a: nat := if tick < 0 then -tick - 1 else tick;
    RatioAtLeastLast(a + 1);
    RatioFalls(a);
    RatioIsPositive(a);
    if tick == 0 {
      RatioOfZero();
      assert (Q64 + 1) * (Q64 - 1) == U128_LIMIT - 1;
      MulLe(Ratio(1), Q64 - 1, Q64 + 1);
      AtLeastQuotient(U128_LIMIT - 1, Ratio(1), Q64 + 1);
    } else if tick > 0 {
      QuotientsDiffer(Ratio(tick), Ratio(tick + 1));
    }
  }

  lemma RatioOfZero()
    ensures Ratio(0) == Q64
  {
    hide Scaled;
    ZeroTakesNoFactor(Q64, 0);
  }

  lemma {:induction false} ZeroTakesNoFactor(ratio: nat, i: nat)
    requires i <= 19
    ensures RatioFrom(ratio, i, 0) == ratio
    decreases 19 - i
  {
    if i < 19 { ZeroTakesNoFactor(ratio, i + 1); }
  }

  lemma {:induction false} PriceIsStrict(t: int, u: int)
    requires MIN_TICK <= t < u <= MAX_TICK
    ensures SqrtPriceAt(t) < SqrtPriceAt(u)
    decreases u - t
  {
    hide SqrtPriceAt;
    PriceRises(u - 1);
    if t < u - 1 { PriceIsStrict(t, u - 1); }
  }

  /** The prices of all ticks. */
  function ConcreteTable(): (table: PriceTable)
    ensures |table| == MAX_TICK - MIN_TICK + 1
    ensures forall i :: 0 <= i < |table| ==> table[i] == SqrtPriceAt(i + MIN_TICK)
  {
    seq<nat>(MAX_TICK - MIN_TICK + 1, i requires 0 <= i < MAX_TICK - MIN_TICK + 1 => SqrtPriceAt(i + MIN_TICK))
  }

  lemma EndPrices()
    ensures SqrtPriceAt(MIN_TICK) == MIN_SQRT_PRICE && SqrtPriceAt(MAX_TICK) == MAX_SQRT_PRICE
  {
    hide RatioFrom;
    LastRatio();
  }

  /** The table the program computes is what the pool's state machine asks of a price table: strictly
      increasing, from the smallest to the largest price. */
  lemma ConcreteTableIsValid()
    ensures ValidTable(ConcreteTable())
  {
    hide SqrtPriceAt;
    var table := ConcreteTable();
    forall i, j | 0 <= i < j < |table| ensures table[i] < table[j] {
      PriceIsStrict(i + MIN_TICK, j + MIN_TICK);
    }
    EndPrices();
  }

  /** Bit `i` of |tick| decides about factor `i`. */
  method ApplyFactor(ratio: nat, i: nat, absTick: nat) returns (next: nat)
    requires i < 19
    ensures RatioFrom(next, i + 1, Dropped(absTick, i + 1)) == RatioFrom(ratio, i, Dropped(absTick, i))
  {
    hide Factor;
    DroppedOnce(absTick, i);
    BitOfDropped(absTick, i, 0);
    if Bit(absTick, i) {
      next := (ratio * Factor(i)) / Q64;
    } else {
      next := ratio;
    }
  }

  lemma {:induction false} DroppedOnce(v: nat, k: nat)
    ensures Dropped(v, k + 1) == Dropped(v, k) / 2
  {
    if k > 0 { DroppedOnce(v / 2, k - 1); }
  }

  /** `get_sqrt_price_at_tick` */
  method GetSqrtPriceAtTick(tick: int) returns (r: Result<nat>)
    ensures r == if MIN_TICK <= tick <= MAX_TICK then Ok(SqrtPriceAt(tick)) else Err(TickOverflow)
  {
    hide RatioFrom, Factor, Dropped;
    var absTick: nat := if tick < 0 then -tick else tick;
    if absTick > MAX_TICK {
      return Err(TickOverflow);
    }
    DroppedNothing(absTick);
    var ratio := ApplyFactor(Q64, 0, absTick);
    ratio := ApplyFactor(ratio, 1, absTick);
    ratio := ApplyFactor(ratio, 2, absTick);
    ratio := ApplyFactor(ratio, 3, absTick);
    ratio := ApplyFactor(ratio, 4, absTick);
    ratio := ApplyFactor(ratio, 5, absTick);
    ratio := ApplyFactor(ratio, 6, absTick);
    ratio := ApplyFactor(ratio, 7, absTick);
    ratio := ApplyFactor(ratio, 8, absTick);
    ratio := ApplyFactor(ratio, 9, absTick);
    ratio := ApplyFactor(ratio, 10, absTick);
    ratio := ApplyFactor(ratio, 11, absTick);
    ratio := ApplyFactor(ratio, 12, absTick);
    ratio := ApplyFactor(ratio, 13, absTick);
    ratio := ApplyFactor(ratio, 14, absTick);
    ratio := ApplyFactor(ratio, 15, absTick);
    ratio := ApplyFactor(ratio, 16, absTick);
    ratio := ApplyFactor(ratio, 17, absTick);
    ratio := ApplyFactor(ratio, 18, absTick);
    NoFactorsLeft(ratio, Dropped(absTick, 19));
    RatioIsPositive(absTick);
    if tick > 0 {
      ratio := (U128_LIMIT - 1) / ratio;
    }
    return Ok(ratio);
  }

  lemma DroppedNothing(v: nat)
    ensures Dropped(v, 0) == v
  {}

  lemma NoFactorsLeft(ratio: nat, a: nat)
    ensures RatioFrom(ratio, 19, a) == ratio
  {}

  // -----------------------------------------------------------------------------------------
  // The logarithm

  const BIT_PRECISION: nat := 16

  /** p^(2^j) */
  function PowerTower(p: nat, j: nat): nat {
    if j == 0 then p else PowerTower(p, j - 1) * PowerTower(p, j - 1)
  }

  /** 2^(e / 2^j) times r / 2^63 is at most p. */
  ghost predicate BelowPower(p: nat, j: nat, r: nat, e: nat) {
    Shifted(r, e) <= Shifted(PowerTower(p, j), 63)
  }

  lemma SquareLe(x: nat, y: nat)
    requires x <= y
    ensures x * x <= y * y
  {
    MulLe(x, y, x);
    MulLe(x, y, y);
  }

  lemma SquareOfShifted(v: nat, k: nat)
    ensures Shifted(v, k) * Shifted(v, k) == Shifted(v * v, k + k)
  {
    hide Shifted;
    ShiftedIsProduct(v, k);
    ShiftedIsProduct(v * v, k + k);
    ShiftedTwice(1, k, k);
    ShiftedIsProduct(Pow2(k), k);
    Regrouped(v, Pow2(k));
  }

  lemma Regrouped(v: nat, p: nat)
    ensures (v * p) * (v * p) == (v * v) * (p * p)
  {
    assert (v * p) * (v * p) == v * (p * (v * p));
    assert p * (v * p) == v * (p * p);
  }

  /** Squaring the remainder and shifting it back appends one bit to the logarithm. */
  lemma SquaredBelowPower(p: nat, j: nat, r: nat, e: nat, r': nat, b: nat)
    requires BelowPower(p, j, r, e) && b <= 1 && Shifted(r', 63 + b) <= r * r
    ensures BelowPower(p, j + 1, r', e + e + b)
  {
    hide Shifted;
    var t := PowerTower(p, j);
    SquareLe(Shifted(r, e), Shifted(t, 63));
    SquareOfShifted(r, e);
    SquareOfShifted(t, 63);
    ShiftedLe(Shifted(r', 63 + b), r * r, e + e);
    ShiftedTwice(r', 63 + b, e + e);
    ShiftedTwice(r', e + e + b, 63);
    ShiftedTwice(t * t, 63, 63);
    ShiftedLe(Shifted(r', e + e + b), Shifted(t * t, 63), 63);
  }

  /** The normalized price: its 64 leading bits. */
  function Normalized(p: nat, msb: nat): nat {
    if msb >= 64 then Dropped(p, msb - 63) else Shifted(p, 63 - msb)
  }

  lemma NormalizedIs(p: nat)
    requires 0 < p
    ensures var msb := Width(p) - 1; BelowPower(p, 0, Normalized(p, msb), msb) && Pow2(63) <= Normalized(p, msb) < Pow2(64)
  {
    hide Shifted, Dropped, Kept, Width;
    var w := Width(p);
    WidthIsHighest(p);
    var msb := w - 1;
    WidthWithin(p, w);
    WidthWithin(p, w - 1);
    if msb >= 64 {
      var k := msb - 63;
      SplitAt(p, k);
      ShiftedLe(Shifted(Dropped(p, k), k), p, 63);
      ShiftedTwice(Dropped(p, k), k, 63);
      ShiftedTwice(1, 63, k);
      ShiftedTwice(1, 64, k);
      if Dropped(p, k) < Pow2(63) {
        ShiftedLe(Dropped(p, k) + 1, Pow2(63), k);
        ShiftedSum(Dropped(p, k), 1, k);
      }
      ShiftedLe(Pow2(64), Dropped(p, k), k);
    } else {
      var k := 63 - msb;
      ShiftedTwice(p, k, msb);
      ShiftedTwice(1, w - 1, k);
      ShiftedTwice(1, w, k);
      ShiftedLe(Pow2(w - 1), p, k);
      ShiftedLe(Pow2(w), p, k);
    }
  }

  /** p is less than 2^(e / 2^j) times (r + slack) / 2^63. */
  ghost predicate AbovePower(p: nat, j: nat, r: nat, e: nat, slack: nat) {
    Shifted(PowerTower(p, j), 63) < Shifted(r + slack, e)
  }

  /** What the truncations of the first `j` steps may have cost, in units of the remainder. */
  function Slack(j: nat): nat {
    if j == 0 then 1 else 3 * Slack(j - 1) + 2
  }

  lemma {:induction false} SlackGrows(j: nat, k: nat)
    requires j <= k
    ensures Slack(j) <= Slack(k)
  {
    if j < k { SlackGrows(j, k - 1); }
  }

  lemma SlackFits(j: nat)
    requires j <= BIT_PRECISION
    ensures Slack(j) < 0x8000_0000
  {
    SlackGrows(j, BIT_PRECISION);
    assert Slack(8) == 13121 by { assert Slack(4) == 161; }
    assert Slack(16) == 86093441 by { assert Slack(12) == 1062881; }
  }

  /** One step multiplies the slack by at most three. */
  lemma SquareWithSlack(r: nat, slack: nat, r': nat, w: nat)
    requires r + r <= 3 * w && slack * slack <= w && r * r < (r' + 1) * w
    ensures (r + slack) * (r + slack) < (r' + (3 * slack + 2)) * w
  {
    MulLe(r + r, 3 * w, slack);
    SquareOfSum(r, slack);
    assert (3 * w) * slack == (3 * slack) * w;
    assert (r' + (3 * slack + 2)) * w == (r' + 1) * w + (3 * slack) * w + w;
  }

  lemma SquareOfSum(x: int, y: int)
    ensures (x + y) * (x + y) == x * x + (x + x) * y + y * y
  {}

  /** A square below 2 * w^2 has a root below 1.5 * w. */
  lemma RootIsSmall(r: nat, w: nat)
    requires r * r < 2 * (w * w)
    ensures r + r <= 3 * w
  {
    if 3 * w < r + r { RootIsLarge(r, w); }
  }

  lemma RootIsLarge(r: nat, w: nat)
    requires 3 * w < r + r
    ensures 2 * (w * w) <= r * r
  {
    SquareLe(3 * w, r + r);
    assert (3 * w) * (3 * w) == 9 * (w * w);
    assert (r + r) * (r + r) == 4 * (r * r);
  }

  lemma SlackIsSmall(slack: nat)
    requires slack < 0x8000_0000
    ensures slack * slack <= 0x8000_0000_0000_0000
  {
    MulLe(slack, 0x8000_0000, slack);
  }

  lemma Doubled(k: nat)
    ensures Pow2(k + 1) == 2 * Pow2(k) && 0 < Pow2(k)
  {
    OneMoreBit(1, k);
    ShiftedLe(1, 1, k);
  }

  /** The truncated square, with its slack, stays above the power. */
  lemma SquaredAbovePower(p: nat, j: nat, r: nat, e: nat, slack: nat, r': nat, b: nat)
    requires AbovePower(p, j, r, e, slack) && b <= 1 && r < Pow2(64) && slack < 0x8000_0000
    requires r * r < Shifted(r' + 1, 63 + b) && (b == 0 ==> r * r < Pow2(127))
    ensures AbovePower(p, j + 1, r', e + e + b, 3 * slack + 2)
  {
    hide Shifted;
    var t, q, s' := PowerTower(p, j), r + slack, 3 * slack + 2;
    SquareLess(Shifted(t, 63), Shifted(q, e));
    SquareOfShifted(q, e);
    SquareOfShifted(t, 63);
    WidePowers(b);
    ShiftedIsProduct(r' + 1, 63 + b);
    ShiftedIsProduct(r' + s', 63 + b);
    SlackIsSmall(slack);
    if b == 0 { RootIsSmall(r, Pow2(63)); }
    SquareWithSlack(r, slack, r', Pow2(63 + b));
    ShiftedLe(q * q, Shifted(r' + s', 63 + b), e + e);
    ShiftedTwice(r' + s', 63 + b, e + e);
    ShiftedTwice(r' + s', e + e + b, 63);
    ShiftedTwice(t * t, 63, 63);
    ShiftedLe(Shifted(r' + s', e + e + b), Shifted(t * t, 63), 63);
  }

  lemma SquareLess(x: nat, y: nat)
    requires x < y
    ensures x * x < y * y
  {
    MulLe(x, y, x);
    MulLt(x, y, y);
  }

  lemma WidePowers(b: nat)
    requires b <= 1
    ensures Pow2(63) == 0x8000_0000_0000_0000 && Pow2(64) == 2 * Pow2(63)
    ensures Pow2(127) == 2 * (Pow2(63) * Pow2(63)) && Pow2(63 + b) == Pow2(63) + b * Pow2(63)
  {
    hide Shifted;
    BigNum.WordIsPow2();
    Doubled(63);
    Doubled(126);
    SquareOfShifted(1, 63);
  }

  /** The bits of the loop after `precision` of them. */
  function FractionFrom(r: nat, precision: nat, fraction: nat): nat
    decreases BIT_PRECISION - precision
  {
    if precision >= BIT_PRECISION then fraction
    else
      var b := Dropped(r * r, 127);
      FractionFrom(Dropped(r * r, 63 + b), precision + 1, fraction + fraction + b)
  }

  /** The fractional part of the logarithm, in units of 2^-16. */
  function Fraction(p: nat): nat
    requires 0 < p
  {
    FractionFrom(Normalized(p, Width(p) - 1), 0, 0)
  }

  /** The loop of `get_tick_at_sqrt_price`. The remainder keeps 64 bits, so squaring it never leaves
      u128, and msb + fraction / 2^16 falls short of the logarithm of the price by less than two units of
      the last bit: 2^(2^16 * msb + fraction) <= p^(2^16) < 2^(2^16 * msb + fraction + 2). */
  method Log2(p: nat) returns (msb: nat, fraction: nat)
    requires 0 < p < U128_LIMIT
    ensures msb == Width(p) - 1 && msb < 128 && fraction == Fraction(p) < Pow2(BIT_PRECISION)
    ensures Shifted(1, Shifted(msb, BIT_PRECISION) + fraction) <= PowerTower(p, BIT_PRECISION)
    ensures PowerTower(p, BIT_PRECISION) < Shifted(1, Shifted(msb, BIT_PRECISION) + fraction + 2)
  {
    hide Shifted, Dropped, Kept, Width, PowerTower, Normalized, Slack;
    WidthIsHighest(p);
    NormalizedIs(p);
    NormalizedAbove(p);
    WideIsLimit();
    WidthWithin(p, 128);
    msb := Width(p) - 1;
    ZeroShifts(msb);
    fraction := 0;
    var r := Normalized(p, msb);
    var precision := 0;
    while precision < BIT_PRECISION
      invariant precision <= BIT_PRECISION && fraction < Pow2(precision)
      invariant Pow2(63) <= r < Pow2(64)
      invariant BelowPower(p, precision, r, Shifted(msb, precision) + fraction)
      invariant AbovePower(p, precision, r, Shifted(msb, precision) + fraction, Slack(precision))
      invariant FractionFrom(r, precision, fraction) == Fraction(p)
    {
      SquareInRange(r);
      assert r * r < U128_LIMIT;
      var square := r * r;
      var moreThanTwo := Dropped(square, 127);
      ghost var before := r;
      r := Dropped(square, 63 + moreThanTwo);
      SplitAt(square, 63 + moreThanTwo);
      OneBit(moreThanTwo, square);
      RemainderAbove(square, 63 + moreThanTwo);
      SlackFits(precision);
      SlackStep(precision);
      SquaredBelowPower(p, precision, before, Shifted(msb, precision) + fraction, r, moreThanTwo);
      SquaredAbovePower(p, precision, before, Shifted(msb, precision) + fraction, Slack(precision), r, moreThanTwo);
      OneMoreBit(msb, precision);
      OneMoreBit(1, precision);
      fraction := fraction + fraction + moreThanTwo;
      precision := precision + 1;
    }
    FinalBound(p, r, Shifted(msb, BIT_PRECISION) + fraction);
    SlackFits(BIT_PRECISION);
    FinalUpperBound(p, r, Shifted(msb, BIT_PRECISION) + fraction, Slack(BIT_PRECISION));
  }

  lemma SlackStep(j: nat)
    ensures Slack(j + 1) == 3 * Slack(j) + 2
  {}

  lemma RemainderAbove(v: nat, k: nat)
    ensures v < Shifted(Dropped(v, k) + 1, k)
  {
    hide Shifted, Dropped, Kept;
    SplitAt(v, k);
    ShiftedSum(Dropped(v, k), 1, k);
  }

  /** The 64 leading bits, rounded up, are above the price. */
  lemma NormalizedAbove(p: nat)
    requires 0 < p
    ensures var msb := Width(p) - 1; AbovePower(p, 0, Normalized(p, msb), msb, Slack(0))
  {
    hide Shifted, Dropped, Kept, Width;
    WidthIsHighest(p);
    var msb := Width(p) - 1;
    if msb >= 64 {
      var k := msb - 63;
      RemainderAbove(p, k);
      ShiftedLe(Shifted(Dropped(p, k) + 1, k), p, 63);
      ShiftedTwice(Dropped(p, k) + 1, k, 63);
    } else {
      var k := 63 - msb;
      ShiftedTwice(p, k, msb);
      ShiftedLe(Shifted(p, k) + 1, Shifted(p, k), msb);
    }
  }

  lemma FinalUpperBound(p: nat, r: nat, e: nat, slack: nat)
    requires AbovePower(p, BIT_PRECISION, r, e, slack) && r < Pow2(64) && slack < 0x8000_0000
    ensures PowerTower(p, BIT_PRECISION) < Shifted(1, e + 2)
  {
    hide Shifted, PowerTower;
    WidePowers(0);
    Doubled(64);
    ShiftedLe(r + slack, Pow2(65), e);
    ShiftedTwice(1, 65, e);
    ShiftedTwice(1, e + 2, 63);
    ShiftedLe(Shifted(1, e + 2), PowerTower(p, BIT_PRECISION), 63);
  }

  lemma ZeroShifts(msb: nat)
    ensures Shifted(msb, 0) == msb && Pow2(0) == 1
  {}

  lemma OneMoreBit(v: nat, k: nat)
    ensures Shifted(v, k + 1) == 2 * Shifted(v, k)
  {}

  /** Squares of 64-bit numbers with the top bit set, shifted back to 64 bits. */
  lemma SquareInRange(r: nat)
    requires Pow2(63) <= r < Pow2(64)
    ensures r * r < U128_LIMIT && Dropped(r * r, 127) <= 1
    ensures Pow2(63) <= Dropped(r * r, 63 + Dropped(r * r, 127)) < Pow2(64)
  {
    hide Shifted, Dropped, Kept;
    var square := r * r;
    SquareLe(Pow2(63), r);
    SquareLe(r, Pow2(64) - 1);
    SquareOfShifted(1, 63);
    SquareOfShifted(1, 64);
    WideIsLimit();
    assert (Pow2(64) - 1) * (Pow2(64) - 1) == Pow2(64) * Pow2(64) - 2 * Pow2(64) + 1;
    assert Pow2(126) <= square < Pow2(128);
    DroppedInRange(square, 127, 1);
    var b := Dropped(square, 127);
    SplitAt(square, 127);
    OneBit(b, square);
    DroppedInRange(square, 63 + b, 64);
    AtLeastDropped(square, 63 + b, 63);
  }

  lemma WideIsLimit()
    ensures Pow2(128) == U128_LIMIT
  {
    hide Shifted;
    BigNum.WordIsPow2();
    ShiftedTwice(1, 64, 64);
    ShiftedIsProduct(Pow2(64), 64);
  }

  /** v < 2^(k + n) drops to less than 2^n. */
  lemma DroppedInRange(v: nat, k: nat, n: nat)
    ensures v < Pow2(k + n) ==> Dropped(v, k) < Pow2(n)
    ensures Pow2(1) == 2
  {
    SplitAt(v, k);
    ShiftedTwice(1, n, k);
    ShiftedLe(Pow2(n), Dropped(v, k), k);
  }

  lemma AtLeastDropped(v: nat, k: nat, n: nat)
    ensures v >= Pow2(k + n) ==> Dropped(v, k) >= Pow2(n)
  {
    hide Shifted, Dropped, Kept;
    SplitAt(v, k);
    ShiftedTwice(1, n, k);
    if Dropped(v, k) < Pow2(n) {
      ShiftedLe(Dropped(v, k) + 1, Pow2(n), k);
      ShiftedSum(Dropped(v, k), 1, k);
    }
  }

  lemma OneBit(b: nat, square: nat)
    requires b == Dropped(square, 127) && b <= 1
    ensures b == 1 ==> square >= Pow2(127)
    ensures b == 0 ==> square < Pow2(127)
  {
    hide Dropped, Kept;
    SplitAt(square, 127);
    hide Shifted;
    if b == 1 { ShiftedLe(1, b, 127); } else { BigNum.ZeroShifted(127); }
  }

  lemma FinalBound(p: nat, r: nat, e: nat)
    requires BelowPower(p, BIT_PRECISION, r, e) && Pow2(63) <= r
    ensures Shifted(1, e) <= PowerTower(p, BIT_PRECISION)
  {
    hide Shifted, PowerTower;
    ShiftedLe(Pow2(63), r, e);
    ShiftedTwice(1, 63, e);
    ShiftedTwice(1, e, 63);
    ShiftedLe(Shifted(1, e), PowerTower(p, BIT_PRECISION), 63);
  }
}
