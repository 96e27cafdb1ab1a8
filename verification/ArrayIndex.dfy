/** Where a tick lives: start indices of tick arrays (programs/amm/src/states/tick_array.rs), and the
    bit of an array in the pool's bitmap or in one of the 2 x 14 extension bitmaps
    (programs/amm/src/libraries/tick_array_bit_map.rs, states/tickarray_bitmap_extension.rs,
    states/pool.rs). Rust's `/` and `%` truncate towards zero, which is spelled out. */
module ArrayIndex {
  import opened FullMath
  import opened Wrappers
  import opened PoolTypes
  import opened Bits

  const TICK_ARRAY_SIZE: nat := 60
  const TICK_ARRAY_BITMAP_SIZE: int := 512
  const EXTENSION_TICKARRAY_BITMAP_SIZE: nat := 14

  function Abs(x: int): nat { if x < 0 then -x else x }

  /** `x / y` and `x % y` for a positive y */
  function TruncDiv(x: int, y: int): int
    requires 0 < y
  {
    if x < 0 then -(-x / y) else x / y
  }

  function TruncMod(x: int, y: int): int
    requires 0 < y
  {
    if x < 0 then -(-x % y) else x % y
  }

  /** `TickArrayState::tick_count` */
  function TickCount(spacing: nat): nat { TICK_ARRAY_SIZE * spacing }

  /** `max_tick_in_tickarray_bitmap` */
  function MaxTickInBitmap(spacing: nat): int { TickCount(spacing) * TICK_ARRAY_BITMAP_SIZE }

  /** `get_array_start_index` */
  function GetArrayStartIndex(tick: int, spacing: nat): int
    requires 0 < spacing
  {
    var n := TickCount(spacing);
    var start := TruncDiv(tick, n);
    var floored := if tick < 0 && TruncMod(tick, n) != 0 then start - 1 else start;
    floored * n
  }

  /** `check_is_valid_start_index` */
  predicate CheckIsValidStartIndex(index: int, spacing: nat)
    requires 0 < spacing
  {
    if index < MIN_TICK || index > MAX_TICK then index <= MAX_TICK && index == GetArrayStartIndex(MIN_TICK, spacing)
    else TruncMod(index, TickCount(spacing)) == 0
  }

  /** The bitmaps as numbers; the extension may not be supplied. */
  datatype Extension = Extension(positive: seq<nat>, negative: seq<nat>)

  ghost predicate ValidExtension(e: Extension) {
    && |e.positive| == EXTENSION_TICKARRAY_BITMAP_SIZE && |e.negative| == EXTENSION_TICKARRAY_BITMAP_SIZE
    && forall i :: 0 <= i < EXTENSION_TICKARRAY_BITMAP_SIZE ==> e.positive[i] < Pow2(512) && e.negative[i] < Pow2(512)
  }

  // -----------------------------------------------------------------------------------------
  // The pool's own bitmap

  /** Bit of a start index in the pool's bitmap. */
  function BitPosition(start: int, spacing: nat): int
    requires 0 < spacing
  {
    var n := TickCount(spacing);
    var compressed := TruncDiv(start, n) + TICK_ARRAY_BITMAP_SIZE;
    if start < 0 && TruncMod(start, n) != 0 then compressed - 1 else compressed
  }

  /** `next_initialized_tick_array_start_index` of tick_array_bit_map.rs */
  function NextInPool(bitmap: nat, last: int, spacing: nat, zeroForOne: bool): Result<(bool, int)>
    requires 0 < spacing
  {
    var n := TickCount(spacing);
    var boundary := MaxTickInBitmap(spacing);
    var _ :- Require(CheckIsValidStartIndex(last, spacing), AssertionFailed);
    var next := if zeroForOne then last - n else last + n;
    if next < -boundary || next >= boundary then Ok((false, last))
    else
      var bitPos := Abs(BitPosition(next, spacing));
      if zeroForOne then
        var shift :- if bitPos < 1024 then Ok(1024 - bitPos - 1) else Err(Overflow);
        var shifted := Kept(Shifted(bitmap, shift), 1024);
        if shifted != 0 then Ok((true, (bitPos - (1024 - Width(shifted)) - 512) * n)) else Ok((false, -boundary))
      else
        var shifted := Dropped(bitmap, bitPos);
        if shifted != 0 then Ok((true, (bitPos + Zeros(shifted) - 512) * n)) else Ok((false, boundary - n))
  }

  // -----------------------------------------------------------------------------------------
  // The extension

  /** `check_extension_boundary` */
  function CheckExtensionBoundary(index: int, spacing: nat): Result<()> {
    var boundary := MaxTickInBitmap(spacing);
    var _ :- Require(MAX_TICK > boundary && -boundary > MIN_TICK, RequireViolated);
    Require(!(-boundary <= index < boundary), InvalidTickArrayBoundary)
  }

  /** `get_bitmap_offset` */
  function GetBitmapOffset(index: int, spacing: nat): Result<int>
    requires 0 < spacing
  {
    var _ :- Require(CheckIsValidStartIndex(index, spacing), InvalidTickIndex);
    var _ :- CheckExtensionBoundary(index, spacing);
    var boundary := MaxTickInBitmap(spacing);
    var offset := Abs(index) / boundary - 1;
    Ok(if index < 0 && Abs(index) % boundary == 0 then offset - 1 else offset)
  }

  /** `get_bitmap` */
  function GetBitmap(e: Extension, index: int, spacing: nat): Result<(nat, nat)>
    requires 0 < spacing
  {
    var offset :- GetBitmapOffset(index, spacing);
    var bitmaps := if index < 0 then e.negative else e.positive;
    if 0 <= offset < |bitmaps| then Ok((offset, bitmaps[offset])) else Err(Overflow)
  }

  /** `tick_array_offset_in_bitmap` */
  function OffsetInBitmap(start: int, spacing: nat): int
    requires 0 < spacing
  {
    var m := Abs(start) % MaxTickInBitmap(spacing);
    var offset := m / TickCount(spacing);
    if start < 0 && m != 0 then TICK_ARRAY_BITMAP_SIZE - offset else offset
  }

  /** `get_bitmap_tick_boundary` */
  function GetBitmapTickBoundary(start: int, spacing: nat): (int, int)
    requires 0 < spacing
  {
    var boundary := MaxTickInBitmap(spacing);
    var m := Abs(start) / boundary;
    var up := if start < 0 && Abs(start) % boundary != 0 then m + 1 else m;
    var min := boundary * up;
    if start < 0 then (-min, -min + boundary) else (min, min + boundary)
  }

  /** `next_initialized_tick_array_in_bitmap` */
  function NextInBitmap(bitmap: nat, next: int, spacing: nat, zeroForOne: bool): Result<(bool, int)>
    requires 0 < spacing
  {
    var n := TickCount(spacing);
    var (low, high) := GetBitmapTickBoundary(next, spacing);
    var offset := OffsetInBitmap(next, spacing);
    if !(0 <= offset < 512) then Err(Overflow)
    else if zeroForOne then
      var shifted := Kept(Shifted(bitmap, 512 - 1 - offset), 512);
      if shifted != 0 then Ok((true, next - (512 - Width(shifted)) * n)) else Ok((false, low))
    else
      var shifted := Dropped(bitmap, offset);
      if shifted != 0 then Ok((true, next + Zeros(shifted) * n)) else Ok((false, high - n))
  }

  /** `next_initialized_tick_array_from_one_bitmap` */
  function NextInExtension(e: Extension, last: int, spacing: nat, zeroForOne: bool): Result<(bool, int)>
    requires 0 < spacing
  {
    var n := TickCount(spacing);
    var next := if zeroForOne then last - n else last + n;
    if next < GetArrayStartIndex(MIN_TICK, spacing) || next > GetArrayStartIndex(MAX_TICK, spacing) then Ok((false, next))
    else
      var (_, bitmap) :- GetBitmap(e, next, spacing);
      NextInBitmap(bitmap, next, spacing, zeroForOne)
  }

  // -----------------------------------------------------------------------------------------
  // Array numbers: array `c` starts at tick c * 60 * spacing.

  /** The array number of a tick. */
  function ArrayOf(tick: int, spacing: nat): int
    requires 0 < spacing
  {
    tick / TickCount(spacing)
  }

  lemma QuotientIs(x: int, n: int, q: int)
    requires 0 < n && q * n <= x < q * n + n
    ensures x / n == q && x % n == x - q * n
  {
    var e := x / n;
    assert x == e * n + x % n;
    if e < q { MulLe(e + 1, q, n); }
    if q < e { MulLe(q + 1, e, n); }
  }

  lemma NegMul(c: int, n: int)
    ensures (-c) * n == -(c * n)
  {}

  /** `get_array_start_index` rounds down to a multiple of the array's size, also below zero. */
  lemma StartIndexIsFloor(tick: int, spacing: nat)
    requires 0 < spacing
    ensures var n := TickCount(spacing);
            GetArrayStartIndex(tick, spacing) == ArrayOf(tick, spacing) * n &&
            ArrayOf(tick, spacing) * n <= tick < ArrayOf(tick, spacing) * n + n
  {
    var n := TickCount(spacing);
    var e := tick / n;
    assert tick == e * n + tick % n;
    if tick < 0 {
      var q := -tick / n;
      assert -tick == q * n + -tick % n;
      NegMul(q, n);
      if -tick % n != 0 { QuotientIs(tick, n, -q - 1); } else { QuotientIs(tick, n, -q); }
    }
  }

  lemma ExactDivision(c: int, n: int)
    requires 0 < n
    ensures TruncDiv(c * n, n) == c && TruncMod(c * n, n) == 0
    ensures (c * n) / n == c && (c * n) % n == 0
  {
    QuotientIs(c * n, n, c);
    NegMul(c, n);
    if c < 0 { MulLe(c, -1, n); QuotientIs(-c * n, n, -c); }
    else { MulLe(0, c, n); }
  }

  lemma StartOfArray(c: int, spacing: nat)
    requires 0 < spacing
    ensures ArrayOf(c * TickCount(spacing), spacing) == c
  {
    ExactDivision(c, TickCount(spacing));
  }

  /** Number of the first array of the bitmap that `c` belongs to. */
  function Base(c: int): int { c / 512 * 512 }

  lemma AbsOfArray(c: int, n: int)
    requires 0 < n
    ensures Abs(c * n) == Abs(c) * n && (c * n < 0 <==> c < 0)
  {
    NegMul(c, n);
    if c < 0 { MulLe(c, -1, n); } else { MulLe(0, c, n); }
  }

  /** Dividing by a whole bitmap of ticks is dividing the array number by 512. */
  lemma BitmapDivision(k: nat, n: nat)
    requires 0 < n
    ensures (k * n) / (n * 512) == k / 512 && (k * n) % (n * 512) == (k % 512) * n && (k % 512) * n / n == k % 512
    ensures (k % 512) * n == 0 <==> k % 512 == 0
  {
    var q, r := k / 512, k % 512;
    assert k == q * 512 + r;
    assert (q * 512 + r) * n == q * (n * 512) + r * n;
    MulLe(r + 1, 512, n);
    MulLe(0, r, n);
    assert (r + 1) * n == r * n + n && 512 * n == n * 512;
    QuotientIs(k * n, n * 512, q);
    QuotientIs(r * n, n, r);
    if r > 0 { MulLe(1, r, n); }
  }

  /** Bit of an array within its extension bitmap. */
  lemma OffsetOfArray(c: int, spacing: nat)
    requires 0 < spacing
    ensures OffsetInBitmap(c * TickCount(spacing), spacing) == c % 512
  {
    var n := TickCount(spacing);
    AbsOfArray(c, n);
    BitmapDivision(Abs(c), n);
  }

  lemma BoundaryOfArray(c: int, spacing: nat)
    requires 0 < spacing
    ensures GetBitmapTickBoundary(c * TickCount(spacing), spacing)
         == (Base(c) * TickCount(spacing), (Base(c) + 512) * TickCount(spacing))
  {
    var n := TickCount(spacing);
    AbsOfArray(c, n);
    BitmapDivision(Abs(c), n);
    var up := if c < 0 && Abs(c) % 512 != 0 then Abs(c) / 512 + 1 else Abs(c) / 512;
    assert Base(c) == if c < 0 then -(up * 512) else up * 512;
    BitmapStart(up, n);
    NegMul(up * 512, n);
  }

  lemma BitmapStart(up: nat, n: nat)
    ensures (n * 512) * up == (up * 512) * n
    ensures (up * 512 + 512) * n == (up * 512) * n + n * 512
    ensures (-(up * 512) + 512) * n == -((up * 512) * n) + n * 512
  {}

  /** Which extension bitmap an array belongs to. */
  function ExtensionIndex(c: int): int {
    if c < 0 then (-c - 1) / 512 - 1 else c / 512 - 1
  }

  lemma OffsetIndexOfArray(c: int, spacing: nat)
    requires 0 < spacing
    ensures var n := TickCount(spacing);
            GetBitmapOffset(c * n, spacing) ==
            if !CheckIsValidStartIndex(c * n, spacing) then Err(InvalidTickIndex)
            else if CheckExtensionBoundary(c * n, spacing).Err? then Err(CheckExtensionBoundary(c * n, spacing).error)
            else Ok(ExtensionIndex(c))
  {
    var n := TickCount(spacing);
    AbsOfArray(c, n);
    BitmapDivision(Abs(c), n);
    if c < 0 {
      var q, r := (-c) / 512, (-c) % 512;
      if r == 0 { assert (-c - 1) / 512 == q - 1; } else { assert (-c - 1) / 512 == q; }
    }
  }

  lemma CompareArrays(c: int, d: int, n: int)
    requires 0 < n
    ensures c < d <==> c * n < d * n
    ensures c == d <==> c * n == d * n
  {
    if c < d { MulLe(c + 1, d, n); } else if d < c { MulLe(d + 1, c, n); }
  }
}
