/** programs/amm/src/libraries/full_math.rs, unsafe_math.rs and fixed_point_64.rs:
    multiply-divide with a range test, and division rounding up. */
module FullMath {
  import opened Wrappers

  const Q64: nat := 0x1_0000_0000_0000_0000
  const U64_LIMIT: nat := 0x1_0000_0000_0000_0000
  const U128_LIMIT: nat := 0x1_0000_0000_0000_0000_0000_0000_0000_0000
  const U256_LIMIT: nat := 0x1_0000_0000_0000_0000_0000_0000_0000_0000_0000_0000_0000_0000_0000_0000_0000_0000
  const U32_LIMIT: nat := 0x1_0000_0000
  const I64_LIMIT: nat := 0x8000_0000_0000_0000
  const I128_LIMIT: nat := 0x8000_0000_0000_0000_0000_0000_0000_0000

  function Min(a: nat, b: nat): nat { if a < b then a else b }

  /** `r` is the rational n / d rounded down. */
  ghost predicate IsFloor(r: int, n: int, d: int) {
    r * d <= n < r * d + d
  }

  /** `r` is the rational n / d rounded up. */
  ghost predicate IsCeil(r: int, n: int, d: int) {
    n <= r * d < n + d
  }

  /** `x / y` on unsigned integers, as repeated subtraction. It carries no postcondition, so that
      code merely passing a quotient along does not drag products along; FloorDivIs says what it is. */
  function FloorDiv(x: nat, y: nat): nat
    requires 0 < y
    decreases x
  {
    if x < y then 0 else 1 + FloorDiv(x - y, y)
  }

  lemma {:induction false} FloorDivIs(x: nat, y: nat)
    requires 0 < y
    ensures IsFloor(FloorDiv(x, y), x, y)
    decreases x
  {
    if x >= y { FloorDivIs(x - y, y); }
  }

  /** `x * y` as repeated addition, for the same reason: predicates can pass a product along; TimesIs says what it is. */
  function Times(x: nat, y: nat): nat {
    if x == 0 then 0 else y + Times(x - 1, y)
  }

  lemma {:induction false} TimesIs(x: nat, y: nat)
    ensures Times(x, y) == x * y
  {
    if x > 0 { TimesIs(x - 1, y); }
  }

  /** `div_rounding_up`: the quotient, plus one when a remainder is left. */
  function DivRoundingUp(x: nat, y: nat): nat
    requires 0 < y
  {
    var q := FloorDiv(x, y);
    if x > q * y then q + 1 else q
  }

  lemma DivRoundingUpIs(x: nat, y: nat)
    requires 0 < y
    ensures IsCeil(DivRoundingUp(x, y), x, y)
  {
    FloorDivIs(x, y);
  }

  /** `(x + (y - 1)) / y`, the other way the source rounds a quotient up. */
  function CeilDiv(x: nat, y: nat): nat
    requires 0 < y
  {
    FloorDiv(x + y - 1, y)
  }

  lemma CeilDivIs(x: nat, y: nat)
    requires 0 < y
    ensures IsCeil(CeilDiv(x, y), x, y)
  {
    FloorDivIs(x + y - 1, y);
  }

  /** val * num / denom rounded down. The product must stay below `wide` and the quotient below
      `narrow` (the None the source returns is unwrapped by every caller). */
  function MulDivFloor(val: nat, num: nat, denom: nat, wide: nat, narrow: nat): Result<nat> {
    if denom == 0 then Err(ZeroDenominator)
    else if wide <= val * num then Err(Overflow)
    else Narrow(FloorDiv(val * num, denom), narrow)
  }

  lemma MulDivFloorIs(val: nat, num: nat, denom: nat, wide: nat, narrow: nat)
    ensures var r := MulDivFloor(val, num, denom, wide, narrow);
            (r.Ok? ==> 0 < denom && IsFloor(r.value, val * num, denom) && r.value < narrow) &&
            (r.Err? ==> if denom == 0 then r.error == ZeroDenominator
                        else r.error == Overflow && (wide <= val * num || narrow * denom <= val * num))
  {
    if denom > 0 && val * num < wide {
      var q := FloorDiv(val * num, denom);
      FloorDivIs(val * num, denom);
      if narrow <= q { MulLe(narrow, q, denom); }
    }
  }

  /** val * num / denom rounded up, with the same range tests. */
  function MulDivCeil(val: nat, num: nat, denom: nat, wide: nat, narrow: nat): Result<nat> {
    if denom == 0 then Err(ZeroDenominator)
    else if wide <= val * num + denom - 1 then Err(Overflow)
    else Narrow(CeilDiv(val * num, denom), narrow)
  }

  lemma MulDivCeilIs(val: nat, num: nat, denom: nat, wide: nat, narrow: nat)
    ensures var r := MulDivCeil(val, num, denom, wide, narrow);
            (r.Ok? ==> 0 < denom && IsCeil(r.value, val * num, denom) && r.value < narrow) &&
            (r.Err? ==> r.error == if denom == 0 then ZeroDenominator else Overflow)
  {
    if denom > 0 { CeilDivIs(val * num, denom); }
  }

  /** When either of them returns: the product must fit the wide range and the quotient the narrow one. */
  lemma MulDivFloorFits(val: nat, num: nat, denom: nat, wide: nat, narrow: nat)
    ensures MulDivFloor(val, num, denom, wide, narrow).Ok? <==> 0 < denom && val * num < wide && val * num < narrow * denom
  {
    if denom > 0 {
      FloorDivIs(val * num, denom);
      FloorIsGreatest(FloorDiv(val * num, denom), val * num, denom, narrow);
    }
  }

  lemma MulDivCeilFits(val: nat, num: nat, denom: nat, wide: nat, narrow: nat)
    ensures MulDivCeil(val, num, denom, wide, narrow).Ok? <==>
              0 < denom && val * num + denom - 1 < wide && 0 < narrow && val * num <= (narrow - 1) * denom
  {
    if denom > 0 {
      CeilDivIs(val * num, denom);
      CeilIsLeast(CeilDiv(val * num, denom), val * num, denom, narrow - 1);
    }
  }

  // The three instances: u64 over a 128-bit product, U128 over a 256-bit product, and U256,
  // whose own product must fit 256 bits and whose result must fit 128.

  function MulDivFloor64(val: nat, num: nat, denom: nat): Result<nat> {
    MulDivFloor(val, num, denom, U128_LIMIT, U64_LIMIT)
  }

  function MulDivCeil64(val: nat, num: nat, denom: nat): Result<nat> {
    MulDivCeil(val, num, denom, U128_LIMIT, U64_LIMIT)
  }

  function MulDivFloor128(val: nat, num: nat, denom: nat): Result<nat> {
    MulDivFloor(val, num, denom, U256_LIMIT, U128_LIMIT)
  }

  function MulDivCeil128(val: nat, num: nat, denom: nat): Result<nat> {
    MulDivCeil(val, num, denom, U256_LIMIT, U128_LIMIT)
  }

  function MulDivFloor256(val: nat, num: nat, denom: nat): Result<nat> {
    MulDivFloor(val, num, denom, U256_LIMIT, U128_LIMIT)
  }

  function MulDivCeil256(val: nat, num: nat, denom: nat): Result<nat> {
    MulDivCeil(val, num, denom, U256_LIMIT, U128_LIMIT)
  }

  /** `as_u64()`, `u64::try_from(..).unwrap()`, checked_add and their kin. */
  function Narrow(x: nat, limit: nat): Result<nat> {
    if x < limit then Ok(x) else Err(Overflow)
  }

  /** `x.checked_sub(y).unwrap()` */
  function CheckedSub(x: nat, y: nat): Result<nat> {
    if y <= x then Ok(x - y) else Err(Underflow)
  }

  /** `to_underflow_u64`: zero when the value does not fit. The test is strict, so the largest u64 counts
      as not fitting. */
  function ToUnderflowU64(x: nat): (r: nat)
    ensures r <= x && r < U64_LIMIT - 1
    ensures r == x || (r == 0 && U64_LIMIT - 1 <= x)
  {
    if x < U64_LIMIT - 1 then x else 0
  }

  // Rounding twice in the same direction is rounding once by the product of the denominators.

  lemma Regroup(r: int, d: int, e: int)
    ensures (r * e) * d == r * (d * e)
    ensures (r * e + e) * d == r * (d * e) + d * e
  {}

  lemma NestedFloor(r: int, q: int, n: int, d: int, e: int)
    requires 0 < d && 0 < e
    requires IsFloor(q, n, d) && IsFloor(r, q, e)
    ensures IsFloor(r, n, d * e)
  {
    MulLe(r * e, q, d);
    MulLe(q + 1, r * e + e, d);
    Regroup(r, d, e);
  }

  lemma NestedCeil(r: int, q: int, n: int, d: int, e: int)
    requires 0 < d && 0 < e
    requires IsCeil(q, n, d) && IsCeil(r, q, e)
    ensures IsCeil(r, n, d * e)
  {
    MulLe(q, r * e, d);
    MulLe(r * e - e, q - 1, d);
    Regroup(r, d, e);
    Regroup(r - 1, d, e);
  }

  lemma MulLe(x: int, y: int, z: int)
    requires x <= y && 0 <= z
    ensures x * z <= y * z
  {}

  lemma MulLt(x: int, y: int, z: int)
    requires x < y && 0 < z
    ensures x * z < y * z
  {}

  lemma MulLeCancel(x: int, y: int, z: int)
    requires x * z <= y * z && 0 < z
    ensures x <= y
  {
    if y < x { MulLt(y, x, z); }
  }

  lemma MulLtCancel(x: int, y: int, z: int)
    requires x * z < y * z && 0 < z
    ensures x < y
  {
    if y <= x { MulLe(y, x, z); }
  }

  /** A floor is the largest integer below, a ceiling the smallest above. */
  lemma FloorIsGreatest(r: int, n: int, d: int, k: int)
    requires 0 < d && IsFloor(r, n, d)
    ensures k * d <= n <==> k <= r
  {
    if k <= r { MulLe(k, r, d); } else { MulLe(r + 1, k, d); }
  }

  lemma CeilIsLeast(r: int, n: int, d: int, k: int)
    requires 0 < d && IsCeil(r, n, d)
    ensures n <= k * d <==> r <= k
  {
    if r <= k { MulLe(r, k, d); } else { MulLe(k, r - 1, d); }
  }

  /** A floor is the quotient. */
  lemma FloorIsQuotient(r: int, n: nat, d: nat)
    requires 0 < d && IsFloor(r, n, d)
    ensures r == n / d
  {
    var q := n / d;
    FloorIsGreatest(r, n, d, q);
    FloorIsGreatest(q, n, d, r);
  }

  /** Rounding down in pieces loses at most one. */
  lemma FloorsAddUp(f: int, g: int, h: int, n: int, m: int, d: int)
    requires 0 < d && IsFloor(f, n, d) && IsFloor(g, m, d) && IsFloor(h, n + m, d)
    ensures f + g <= h <= f + g + 1
  {
    assert (f + g) * d == f * d + g * d;
    FloorIsGreatest(h, n + m, d, f + g);
    assert (f + g + 2) * d == f * d + g * d + d + d;
    FloorIsGreatest(h, n + m, d, f + g + 2);
  }

  /** Rounding up in pieces adds at most one. */
  lemma CeilsAddUp(f: int, g: int, h: int, n: int, m: int, d: int)
    requires 0 < d && IsCeil(f, n, d) && IsCeil(g, m, d) && IsCeil(h, n + m, d)
    ensures h <= f + g <= h + 1
  {
    assert (f + g) * d == f * d + g * d;
    CeilIsLeast(h, n + m, d, f + g);
    assert (f + g - 2) * d == f * d + g * d - d - d;
    CeilIsLeast(h, n + m, d, f + g - 2);
  }
}
