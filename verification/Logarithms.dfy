/** How far the truncated prices of programs/amm/src/libraries/tick_math.rs are from powers of 1.0001: bounds on their
    logarithms, kept in integers. A number is raised to the power 2^28 and compared with powers of two. */
module Logarithms {
  import opened FullMath
  import opened PoolTypes
  import opened Bits
  import opened TickMath
  import BigNum

  /** Squarings, and so fractional bits of a logarithm. */
  const PRECISION: nat := 28
  const UNIT: nat := 0x1000_0000

  function Tower(x: nat): nat {
    PowerTower(x, PRECISION)
  }

  // -----------------------------------------------------------------------------------------
  // Powers

  lemma {:induction false} TowerProduct(x: nat, y: nat, j: nat)
    ensures PowerTower(x * y, j) == PowerTower(x, j) * PowerTower(y, j)
  {
    if j > 0 {
      TowerProduct(x, y, j - 1);
      Regrouped(PowerTower(x, j - 1), PowerTower(y, j - 1));
    }
  }

  lemma {:induction false} TowerGrows(x: nat, y: nat, j: nat)
    ensures x <= y ==> PowerTower(x, j) <= PowerTower(y, j)
    ensures x < y ==> PowerTower(x, j) < PowerTower(y, j)
    ensures 0 < x ==> 0 < PowerTower(x, j)
  {
    if j > 0 {
      TowerGrows(x, y, j - 1);
      var a, b := PowerTower(x, j - 1), PowerTower(y, j - 1);
      if a <= b { SquareLe(a, b); }
      if a < b { SquareLess(a, b); }
      if 0 < a { MulLt(0, a, a); }
    }
  }

  lemma {:induction false} TowerTwice(x: nat, i: nat, j: nat)
    ensures PowerTower(PowerTower(x, i), j) == PowerTower(x, i + j)
  {
    if j > 0 { TowerTwice(x, i, j - 1); }
  }

  lemma {:induction false} TowerOfPow2(n: nat, j: nat)
    ensures PowerTower(Pow2(n), j) == Pow2(Shifted(n, j))
  {
    hide Shifted;
    if j > 0 {
      TowerOfPow2(n, j - 1);
      SquareOfShifted(1, Shifted(n, j - 1));
      OneMoreBit(n, j - 1);
    } else {
      BigNum.ShiftedByZero(n);
    }
  }

  lemma TowerOfPower(n: nat)
    ensures Tower(Pow2(n)) == Pow2(n * UNIT)
  {
    hide Shifted;
    TowerOfPow2(n, PRECISION);
    ShiftedIsProduct(n, PRECISION);
    UnitIsPow2();
  }

  lemma UnitIsPow2()
    ensures Pow2(PRECISION) == UNIT && Pow2(12) == 0x1000 && Pow2(18) == 0x4_0000 && Pow2(31) == 0x8000_0000
  {
    hide Shifted;
    BigNum.ShiftedByByte(1);
    ShiftedTwice(1, 8, 4);
    ShiftedByFour(Pow2(8));
    ShiftedTwice(1, 12, 8);
    BigNum.ShiftedByByte(Pow2(12));
    ShiftedTwice(1, 20, 8);
    BigNum.ShiftedByByte(Pow2(20));
    Doubled(18);
    Doubled(19);
    Doubled(28);
    Doubled(29);
    Doubled(30);
  }

  lemma ShiftedByFour(v: nat)
    ensures Shifted(v, 4) == 16 * v
  {
    assert Shifted(v, 1) == 2 * v;
    assert Shifted(v, 2) == 4 * v;
    assert Shifted(v, 3) == 8 * v;
  }

  lemma Pow2Sum(a: nat, b: nat)
    ensures Pow2(a) * Pow2(b) == Pow2(a + b) && 0 < Pow2(a)
  {
    hide Shifted;
    ShiftedTwice(1, a, b);
    ShiftedIsProduct(Pow2(a), b);
    ShiftedLe(1, 1, a);
  }

  lemma Pow2Orders(a: nat, b: nat)
    ensures a <= b <==> Pow2(a) <= Pow2(b)
  {
    hide Shifted;
    if a <= b { BigNum.Pow2Le(a, b); }
    else {
      BigNum.Pow2Le(b + 1, a);
      Doubled(b);
    }
  }

  /** What is larger squared is larger. */
  lemma RootsOrder(x: nat, y: nat)
    requires x * x <= y * y
    ensures x <= y
  {
    if y < x { SquareLess(y, x); }
  }

  // -----------------------------------------------------------------------------------------
  // A ratio close to one

  /** 2^31 - 2; one more in 2^31 - 2 adds less than one unit to a logarithm. */
  const MANY: nat := 0x7FFF_FFFE

  /** (1 + 1/n)^(2^j) is at most 1 + 1/k where n is about k times 2^j. */
  lemma {:induction false} NearlyOne(n: nat, j: nat, k: nat)
    requires n + 2 == Shifted(k + 2, j) && 0 < k
    ensures PowerTower(n + 1, j) * k <= PowerTower(n, j) * (k + 1)
  {
    hide Shifted;
    if j == 0 {
      BigNum.ShiftedByZero(k + 2);
    } else {
      OneMoreBit(k + 2, j - 1);
      DoublingInside(k + 2, j - 1);
      NearlyOne(n, j - 1, k + k + 2);
      SquaredNearlyOne(PowerTower(n + 1, j - 1), PowerTower(n, j - 1), k);
    }
  }

  lemma {:induction false} DoublingInside(v: nat, j: nat)
    ensures Shifted(v + v, j) == 2 * Shifted(v, j)
  {
    hide Shifted;
    ShiftedSum(v, v, j);
  }

  lemma SquaredNearlyOne(a: nat, b: nat, k: nat)
    requires 0 < k && a * (k + k + 2) <= b * (k + k + 3)
    ensures (a * a) * k <= (b * b) * (k + 1)
  {
    var u, v := k + k + 2, k + k + 3;
    SquareLe(a * u, b * v);
    Regrouped(a, u);
    Regrouped(b, v);
    Cubic(k);
    MulLe((v * v) * k, (u * u) * (k + 1), b * b);
    MulLe((a * a) * (u * u), (b * b) * (v * v), k);
    Rearranged(a * a, b * b, u * u, v * v, k);
    MulLt(0, u, u);
    MulLeCancel((a * a) * k, (b * b) * (k + 1), u * u);
  }

  lemma Cubic(k: nat)
    ensures ((k + k + 3) * (k + k + 3)) * k <= ((k + k + 2) * (k + k + 2)) * (k + 1)
  {
    var s := k * k;
    assert (k + k + 3) * (k + k + 3) == 4 * s + 12 * k + 9;
    assert (k + k + 2) * (k + k + 2) == 4 * s + 8 * k + 4;
    assert (4 * s + 12 * k + 9) * k == 4 * (s * k) + 12 * s + 9 * k;
    assert (4 * s + 8 * k + 4) * (k + 1) == 4 * (s * k) + 8 * s + 4 * k + 4 * s + 8 * k + 4;
  }

  lemma Rearranged(a: nat, b: nat, u: nat, v: nat, k: nat)
    requires (a * u) * k <= (b * v) * k && (v * k) * b <= (u * (k + 1)) * b
    ensures (a * k) * u <= (b * (k + 1)) * u
  {
    assert (a * u) * k == (a * k) * u;
    assert (b * v) * k == (v * k) * b;
    assert (u * (k + 1)) * b == (b * (k + 1)) * u;
  }

  lemma OneMoreInMany()
    ensures 0 < Tower(MANY) && Tower(MANY + 1) <= 2 * Tower(MANY)
  {
    hide Shifted, PowerTower;
    UnitIsPow2();
    ShiftedIsProduct(8, PRECISION);
    NearlyOne(MANY, PRECISION, 6);
    TowerGrows(MANY, MANY, PRECISION);
  }

  // -----------------------------------------------------------------------------------------
  // The last factor

  /** The 2^j-th power of the normalized last factor lies between two 64-bit numbers times 2^e. */
  ghost predicate Between(j: nat, lo: nat, hi: nat, e: nat) {
    Shifted(lo, e) <= PowerTower(NORMALIZED, j) <= Shifted(hi, e)
  }

  /** The factor of bit 18, shifted to 64 bits. */
  const NORMALIZED: nat := 0x2216e584f5fa * 0x4_0000

  lemma Squared(j: nat, lo: nat, hi: nat, e: nat, lo': nat, hi': nat, s: nat)
    requires Between(j, lo, hi, e) && 63 <= s <= 64
    requires lo' * (if s == 63 then 0x8000_0000_0000_0000 else Q64) <= lo * lo
    requires hi * hi <= hi' * (if s == 63 then 0x8000_0000_0000_0000 else Q64)
    ensures Between(j + 1, lo', hi', e + e + s)
  {
    hide Shifted;
    BigNum.WordIsPow2();
    Doubled(63);
    var t := PowerTower(NORMALIZED, j);
    SquareLe(Shifted(lo, e), t);
    SquareLe(t, Shifted(hi, e));
    SquareOfShifted(lo, e);
    SquareOfShifted(hi, e);
    ShiftedIsProduct(lo', s);
    ShiftedIsProduct(hi', s);
    ShiftedLe(Shifted(lo', s), lo * lo, e + e);
    ShiftedLe(hi * hi, Shifted(hi', s), e + e);
    ShiftedTwice(lo', s, e + e);
    ShiftedTwice(hi', s, e + e);
  }

  /** Twenty-eight squarings. */
  lemma LastFactorTower()
    ensures Between(28, 0xd60d025b6b2c3ab2, 0xd60d025b83368259, 16935929200)
  {
    hide Between, PowerTower, Shifted;
    assert Between(0, NORMALIZED, NORMALIZED, 0) by { StartsBetween(); }
    Squared(0, 0x885b9613d7e80000, 0x885b9613d7e80000, 0, 0x9142e0723efa82fb, 0x9142e0723efa82fc, 63);
    Squared(1, 0x9142e0723efa82fb, 0x9142e0723efa82fc, 63, 0xa4d9a773d610c57c, 0xa4d9a773d610c580, 63);
    Squared(2, 0xa4d9a773d610c57c, 0xa4d9a773d610c580, 189, 0xd44f2f33745d7653, 0xd44f2f33745d765e, 63);
    Squared(3, 0xd44f2f33745d7653, 0xd44f2f33745d765e, 441, 0xb0133eab63308cba, 0xb0133eab63308ccd, 64);
    Squared(4, 0xb0133eab63308cba, 0xb0133eab63308ccd, 946, 0xf234ef3c0a55e2fb, 0xf234ef3c0a55e330, 63);
    Squared(5, 0xf234ef3c0a55e2fb, 0xf234ef3c0a55e330, 1955, 0xe5281f3f937fbd67, 0xe5281f3f937fbdcd, 64);
    Squared(6, 0xe5281f3f937fbd67, 0xe5281f3f937fbdcd, 3974, 0xcd20ce3185911648, 0xcd20ce31859116ff, 64);
    Squared(7, 0xcd20ce3185911648, 0xcd20ce31859116ff, 8012, 0xa45d8e6f825f7e7e, 0xa45d8e6f825f7fa5, 64);
    Squared(8, 0xa45d8e6f825f7e7e, 0xa45d8e6f825f7fa5, 16088, 0xd310015f569df14f, 0xd310015f569df445, 63);
    Squared(9, 0xd310015f569df14f, 0xd310015f569df445, 32239, 0xae03634354b511b5, 0xae03634354b51697, 64);
    Squared(10, 0xae03634354b511b5, 0xae03634354b51697, 64542, 0xec9135f6026e8b13, 0xec9135f6026e985b, 63);
    Squared(11, 0xec9135f6026e8b13, 0xec9135f6026e985b, 129147, 0xda9c0ddbc08a5b0f, 0xda9c0ddbc08a739b, 64);
    Squared(12, 0xda9c0ddbc08a5b0f, 0xda9c0ddbc08a739b, 258358, 0xbaae26bb287e59e5, 0xbaae26bb287e83d2, 64);
    Squared(13, 0xbaae26bb287e59e5, 0xbaae26bb287e83d2, 516780, 0x882186c0a31ebf3c, 0x882186c0a31efc63, 64);
    Squared(14, 0x882186c0a31ebf3c, 0x882186c0a31efc63, 1033624, 0x90c7472163d1e9ac, 0x90c7472163d26bc0, 63);
    Squared(15, 0x90c7472163d1e9ac, 0x90c7472163d26bc0, 2067311, 0xa3c1964a73f1c1e8, 0xa3c1964a73f2e82b, 63);
    Squared(16, 0xa3c1964a73f1c1e8, 0xa3c1964a73f2e82b, 4134685, 0xd1802f8d884809f4, 0xd1802f8d884afae2, 63);
    Squared(17, 0xd1802f8d884809f4, 0xd1802f8d884afae2, 8269433, 0xab728dd4aee32e94, 0xab728dd4aee7feeb, 64);
    Squared(18, 0xab728dd4aee32e94, 0xab728dd4aee7feeb, 16538930, 0xe5a47979834677cf, 0xe5a4797983535d16, 63);
    Squared(19, 0xe5a47979834677cf, 0xe5a4797983535d16, 33077923, 0xcdffaaff42305c67, 0xcdffaaff42477f2b, 64);
    Squared(20, 0xcdffaaff42305c67, 0xcdffaaff42477f2b, 66155910, 0xa5c37732eabf52c2, 0xa5c37732eae48ea7, 64);
    Squared(21, 0xa5c37732eabf52c2, 0xa5c37732eae48ea7, 132311884, 0xd6ab19cce3594109, 0xd6ab19cce3b9b12c, 63);
    Squared(22, 0xd6ab19cce3594109, 0xd6ab19cce3b9b12c, 264623831, 0xb402817e066a9a5a, 0xb402817e070c56bf, 64);
    Squared(23, 0xb402817e066a9a5a, 0xb402817e070c56bf, 529247726, 0xfd270c3f00fc8675, 0xfd270c3f02c36ea7, 63);
    Squared(24, 0xfd270c3f00fc8675, 0xfd270c3f02c36ea7, 1058495515, 0xfa56342943bb664d, 0xfa563429473f1807, 64);
    Squared(25, 0xfa56342943bb664d, 0xfa563429473f1807, 2116991094, 0xf4cc7ae7aea44fe2, 0xf4cc7ae7b583e4ec, 64);
    Squared(26, 0xf4cc7ae7aea44fe2, 0xf4cc7ae7b583e4ec, 4233982252, 0xea166d9dc1293247, 0xea166d9dce4e6152, 64);
    Squared(27, 0xea166d9dc1293247, 0xea166d9dce4e6152, 8467964568, 0xd60d025b6b2c3ab2, 0xd60d025b83368259, 64);
  }

  lemma StartsBetween()
    ensures Between(0, NORMALIZED, NORMALIZED, 0)
  {}

  // -----------------------------------------------------------------------------------------
  // All factors

  /** What the factor of bit `i` takes off a logarithm: this much, or up to three units of 2^-28 more. */
  function Fall(i: nat): nat {
    if i == 0 then 19361
    else if i == 1 then 38724
    else if i == 2 then 77449
    else if i == 3 then 154899
    else if i == 4 then 309799
    else if i == 5 then 619600
    else if i == 6 then 1239202
    else if i == 7 then 2478406
    else if i == 8 then 4956813
    else if i == 9 then 9913628
    else if i == 10 then 19827257
    else if i == 11 then 39654515
    else if i == 12 then 79309032
    else if i == 13 then 158618065
    else if i == 14 then 317236132
    else if i == 15 then 634472265
    else if i == 16 then 1268944531
    else if i == 17 then 2537889063
    else 5075778128
  }

  lemma FallsHalve(i: nat)
    requires i < 18
    ensures Fall(i + 1) - 2 <= 2 * Fall(i) <= Fall(i + 1) - 1
  {}

  ghost predicate FactorWithin(i: nat) {
    Tower(Factor(i)) * Pow2(Fall(i)) <= Pow2(64 * UNIT) <= Tower(Factor(i)) * Pow2(Fall(i) + 3)
  }

  lemma LastFactorWithin()
    ensures FactorWithin(18)
  {
    hide Shifted, PowerTower;
    var x, e, d := Factor(18), 16935929200, Fall(18);
    LastFactorTower();
    BigNum.WordIsPow2();
    Doubled(63);
    UnitIsPow2();
    TowerProduct(x, Pow2(18), PRECISION);
    TowerOfPower(18);
    var t, p := Tower(x), Pow2(18 * UNIT);
    assert PowerTower(NORMALIZED, 28) == t * p;
    ShiftedLe(0xd60d025b83368259, Pow2(64), e);
    ShiftedLe(Pow2(63), 0xd60d025b6b2c3ab2, e);
    ShiftedTwice(1, 64, e);
    ShiftedTwice(1, 63, e);
    assert Pow2(63 + e) <= t * p <= Pow2(64 + e);
    CancelPower(t, d, 18 * UNIT, 64 + e, 64 * UNIT);
    CancelPowerBelow(t, d + 3, 18 * UNIT, 63 + e, 64 * UNIT);
  }

  lemma CancelPower(t: nat, d: nat, k: nat, n: nat, m: nat)
    requires t * Pow2(k) <= Pow2(n) && n + d <= m + k
    ensures t * Pow2(d) <= Pow2(m)
  {
    hide Pow2;
    MulLe(t * Pow2(k), Pow2(n), Pow2(d));
    Pow2Sum(n, d);
    Pow2Orders(n + d, m + k);
    Pow2Sum(m, k);
    Pow2Sum(k, 0);
    assert (t * Pow2(k)) * Pow2(d) == (t * Pow2(d)) * Pow2(k);
    MulLeCancel(t * Pow2(d), Pow2(m), Pow2(k));
  }

  lemma CancelPowerBelow(t: nat, d: nat, k: nat, n: nat, m: nat)
    requires Pow2(n) <= t * Pow2(k) && m + k <= n + d
    ensures Pow2(m) <= t * Pow2(d)
  {
    hide Pow2;
    MulLe(Pow2(n), t * Pow2(k), Pow2(d));
    Pow2Sum(n, d);
    Pow2Orders(m + k, n + d);
    Pow2Sum(m, k);
    Pow2Sum(k, 0);
    assert (t * Pow2(k)) * Pow2(d) == (t * Pow2(d)) * Pow2(k);
    MulLeCancel(Pow2(m), t * Pow2(d), Pow2(k));
  }

  /** A product that is larger by one part in `MANY` at most has a tower at most twice as large. */
  lemma NearlyLe(a: nat, b: nat)
    requires a * MANY <= b * (MANY + 1)
    ensures Tower(a) <= 2 * Tower(b)
  {
    hide PowerTower;
    TowerGrows(a * MANY, b * (MANY + 1), PRECISION);
    TowerProduct(a, MANY, PRECISION);
    TowerProduct(b, MANY + 1, PRECISION);
    OneMoreInMany();
    MulLe(Tower(MANY + 1), 2 * Tower(MANY), Tower(b));
    assert Tower(b) * Tower(MANY + 1) <= (2 * Tower(b)) * Tower(MANY);
    MulLeCancel(Tower(a), 2 * Tower(b), Tower(MANY));
  }

  /** Each factor is the square of the one before, to within one part in `MANY`. */
  lemma FactorsSquare(i: nat)
    requires i < 18
    ensures (Factor(i) * Factor(i)) * MANY <= (Factor(i + 1) * Q64) * (MANY + 1)
    ensures (Factor(i + 1) * Q64) * MANY <= (Factor(i) * Factor(i)) * (MANY + 1)
  {}

  lemma {:induction false} FactorIsWithin(i: nat)
    requires i <= 18
    ensures FactorWithin(i)
    decreases 18 - i
  {
    hide Factor, Fall, PowerTower, Pow2;
    if i == 18 {
      LastFactorWithin();
    } else {
      FactorIsWithin(i + 1);
      FactorsSquare(i);
      FallsHalve(i);
      var y, z := Factor(i), Factor(i + 1);
      NearlyLe(y * y, z * Q64);
      NearlyLe(z * Q64, y * y);
      TowerProduct(y, y, PRECISION);
      TowerProduct(z, Q64, PRECISION);
      TowerOfQ64();
      HalfFall(Tower(y), Tower(z), Fall(i), Fall(i + 1));
    }
  }

  lemma TowerOfQ64()
    ensures Tower(Q64) == Pow2(64 * UNIT)
  {
    hide Shifted, PowerTower;
    BigNum.WordIsPow2();
    TowerOfPower(64);
  }

  lemma HalfFall(t: nat, t': nat, d: nat, d': nat)
    requires t * t <= 2 * (t' * Pow2(64 * UNIT)) && t' * Pow2(64 * UNIT) <= 2 * (t * t)
    requires t' * Pow2(d') <= Pow2(64 * UNIT) <= t' * Pow2(d' + 3) && d' - 2 <= 2 * d <= d' - 1
    ensures t * Pow2(d) <= Pow2(64 * UNIT) <= t * Pow2(d + 3)
  {
    hide Pow2;
    var w := Pow2(64 * UNIT);
    HalfAbove(t, t', d, d', w);
    HalfBelow(t, t', d + 3, d' + 3, w);
  }

  lemma HalfAbove(t: nat, t': nat, d: nat, d': nat, w: nat)
    requires t * t <= 2 * (t' * w) && t' * Pow2(d') <= w && 2 * d + 1 <= d'
    ensures t * Pow2(d) <= w
  {
    hide Pow2;
    var q := Pow2(d);
    Pow2Sum(d, d);
    Pow2Sum(d + d, 1);
    PowerOne();
    Pow2Orders(d + d + 1, d');
    Regrouped(t, q);
    MulLe(t * t, 2 * (t' * w), q * q);
    assert (2 * (t' * w)) * (q * q) == (t' * ((q * q) * 2)) * w;
    MulLe((q * q) * 2, Pow2(d'), t');
    MulLe(t' * ((q * q) * 2), w, w);
    RootsOrder(t * q, w);
  }

  lemma HalfBelow(t: nat, t': nat, d: nat, d': nat, w: nat)
    requires t' * w <= 2 * (t * t) && w <= t' * Pow2(d') && d' + 1 <= 2 * d
    ensures w <= t * Pow2(d)
  {
    hide Pow2;
    var q := Pow2(d);
    Pow2Sum(d, d);
    Pow2Sum(d', 1);
    PowerOne();
    Pow2Orders(d' + 1, d + d);
    MulLe(w, t' * Pow2(d'), w);
    assert (t' * Pow2(d')) * w == (t' * w) * Pow2(d');
    MulLe(t' * w, 2 * (t * t), Pow2(d'));
    assert (2 * (t * t)) * Pow2(d') == (t * t) * (Pow2(d') * 2);
    MulLe(Pow2(d') * 2, q * q, t * t);
    Regrouped(t, q);
    RootsOrder(w, t * q);
  }

  lemma PowerOne()
    ensures Pow2(1) == 2
  {}

  // -----------------------------------------------------------------------------------------
  // Their products

  /** What the factors from number `i` on take off, for the bits of `a`. */
  function FallFrom(i: nat, a: nat): nat
    requires i <= 19
    decreases 19 - i
  {
    if i == 19 then 0 else (if a % 2 == 1 then Fall(i) else 0) + FallFrom(i + 1, a / 2)
  }

  lemma ScaledWithin(ratio: nat, i: nat)
    requires i <= 18 && MANY <= Scaled(ratio, i)
    ensures Tower(Scaled(ratio, i)) * Pow2(Fall(i)) <= Tower(ratio) <= Tower(Scaled(ratio, i)) * Pow2(Fall(i) + 4)
  {
    hide Factor, Fall, PowerTower, Pow2, Scaled;
    var r, f := Scaled(ratio, i), Factor(i);
    ScaledIs(ratio, i);
    FactorIsWithin(i);
    TowerOfQ64();
    TowerGrows(r * Q64, ratio * f, PRECISION);
    assert (ratio * f) * MANY <= (r * Q64) * (MANY + 1);
    NearlyLe(ratio * f, r * Q64);
    TowerProduct(r, Q64, PRECISION);
    TowerProduct(ratio, f, PRECISION);
    StepWithin(Tower(r), Tower(ratio), Tower(f), Fall(i), Pow2(64 * UNIT));
  }

  lemma StepWithin(t: nat, t0: nat, u: nat, d: nat, w: nat)
    requires t * w <= t0 * u <= 2 * (t * w) && u * Pow2(d) <= w <= u * Pow2(d + 3) && 0 < w
    ensures t * Pow2(d) <= t0 <= t * Pow2(d + 4)
  {
    hide Pow2;
    MulLe(t * w, t0 * u, Pow2(d));
    MulLe(u * Pow2(d), w, t0);
    Shuffled(t, w, Pow2(d), t0, u);
    MulLeCancel(t * Pow2(d), t0, w);
    MulLe(w, u * Pow2(d + 3), t0);
    MulLe(t0 * u, 2 * (t * w), Pow2(d + 3));
    Pow2Sum(d + 3, 1);
    PowerOne();
    Shuffled2(t, w, Pow2(d + 3), t0, u);
    MulLeCancel(t0, t * Pow2(d + 4), w);
  }

  lemma Shuffled(t: nat, w: nat, q: nat, t0: nat, u: nat)
    ensures (t * w) * q == (t * q) * w && (t0 * u) * q == (u * q) * t0 && w * t0 == t0 * w
  {}

  lemma Shuffled2(t: nat, w: nat, q: nat, t0: nat, u: nat)
    ensures (2 * (t * w)) * q == (t * (q * 2)) * w && (t0 * u) * q == (u * q) * t0 && w * t0 == t0 * w
  {}

  /** A product of factors, while it stays above `MANY`: its logarithm falls by what its factors take off, to
      within four units each. */
  lemma {:induction false} RatioWithin(ratio: nat, i: nat, a: nat)
    requires i <= 19 && MANY <= RatioFrom(ratio, i, a)
    ensures var t, d := Tower(RatioFrom(ratio, i, a)), FallFrom(i, a);
            t * Pow2(d) <= Tower(ratio) <= t * Pow2(d + 4 * (19 - i))
    decreases 19 - i
  {
    hide Factor, Fall, PowerTower, Pow2, Scaled;
    if i == 19 {
      NoPower();
    } else {
      var next := if a % 2 == 1 then Scaled(ratio, i) else ratio;
      RatioShrinks(next, i + 1, a / 2);
      RatioWithin(next, i + 1, a / 2);
      var t, d, k := Tower(RatioFrom(ratio, i, a)), FallFrom(i + 1, a / 2), 4 * (18 - i);
      if a % 2 == 1 {
        ScaledWithin(ratio, i);
        TwoSteps(t, Tower(next), Tower(ratio), d, Fall(i), k);
      } else {
        Pow2Orders(d + k, d + k + 4);
        MulLe(Pow2(d + k), Pow2(d + k + 4), t);
      }
    }
  }

  lemma NoPower()
    ensures Pow2(0) == 1
  {}

  lemma TwoSteps(t: nat, t1: nat, t0: nat, d: nat, f: nat, k: nat)
    requires t * Pow2(d) <= t1 <= t * Pow2(d + k) && t1 * Pow2(f) <= t0 <= t1 * Pow2(f + 4)
    ensures t * Pow2(f + d) <= t0 <= t * Pow2(f + d + k + 4)
  {
    hide Pow2;
    MulLe(t * Pow2(d), t1, Pow2(f));
    MulLe(t1, t * Pow2(d + k), Pow2(f + 4));
    Pow2Sum(d, f);
    Pow2Sum(d + k, f + 4);
    assert (t * Pow2(d)) * Pow2(f) == t * (Pow2(d) * Pow2(f));
    assert (t * Pow2(d + k)) * Pow2(f + 4) == t * (Pow2(d + k) * Pow2(f + 4));
  }
}
