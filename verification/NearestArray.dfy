/** The search for the nearest initialized tick array over the pool's bitmap and the 28 extension
    bitmaps (programs/amm/src/states/pool.rs), against the plain set of initialized arrays. */
module NearestArray {
  import opened FullMath
  import opened Wrappers
  import opened PoolTypes
  import opened Bits
  import BigNum
  import opened ArrayIndex

  /** `next_initialized_tick_array_start_index` from a start index on: the pool's bitmap, then one
      extension bitmap, and so on until one answers or the tick range ends. */
  function SearchFrom(pool: nat, e: Option<Extension>, last: int, spacing: nat, zeroForOne: bool): Result<Option<int>>
    requires 0 < spacing
    decreases if zeroForOne then Above(last) else Beneath(last)
  {
    var inPool := NextInPool(pool, last, spacing, zeroForOne);
    if inPool.Err? then Err(inPool.error)
    else if inPool.value.0 then Ok(Some(inPool.value.1))
    else if e.None? then Err(MissingTickArrayBitmapExtensionAccount)
    else
      var inExtension := NextInExtension(e.value, inPool.value.1, spacing, zeroForOne);
      if inExtension.Err? then Err(inExtension.error)
      else
        var (found, start) := inExtension.value;
        if found then Ok(Some(start))
        else if start < MIN_TICK || start > MAX_TICK then Ok(None)
        else
          SearchProgresses(pool, e.value, last, spacing, zeroForOne);
          SearchFrom(pool, e, start, spacing, zeroForOne)
  }

  function Above(last: int): nat { if last < MIN_TICK then 0 else last - MIN_TICK + 1 }

  function Beneath(last: int): nat { if last > MAX_TICK then 0 else MAX_TICK - last + 1 }

  /** `next_initialized_tick_array_start_index` of the pool */
  function NextInitializedArray(pool: nat, e: Option<Extension>, last: int, spacing: nat, zeroForOne: bool): Result<Option<int>>
    requires 0 < spacing
  {
    SearchFrom(pool, e, GetArrayStartIndex(last, spacing), spacing, zeroForOne)
  }

  // -----------------------------------------------------------------------------------------
  // Start indices are array numbers times the array size

  function FirstArray(spacing: nat): int
    requires 0 < spacing
  {
    ArrayOf(MIN_TICK, spacing)
  }

  function LastArray(spacing: nat): int
    requires 0 < spacing
  {
    ArrayOf(MAX_TICK, spacing)
  }

  /** Valid start indices are those of the arrays that reach into the tick range. */
  lemma ValidStart(c: int, spacing: nat)
    requires 0 < spacing
    ensures CheckIsValidStartIndex(c * TickCount(spacing), spacing) <==> FirstArray(spacing) <= c <= LastArray(spacing)
    ensures GetArrayStartIndex(MIN_TICK, spacing) == FirstArray(spacing) * TickCount(spacing)
    ensures GetArrayStartIndex(MAX_TICK, spacing) == LastArray(spacing) * TickCount(spacing)
  {
    var n := TickCount(spacing);
    StartIndexIsFloor(MIN_TICK, spacing);
    StartIndexIsFloor(MAX_TICK, spacing);
    ExactDivision(c, n);
    CompareArrays(c, FirstArray(spacing), n);
    CompareArrays(c, FirstArray(spacing) + 1, n);
    CompareArrays(c, LastArray(spacing), n);
    CompareArrays(c, LastArray(spacing) + 1, n);
    Neighbour(FirstArray(spacing), n);
    Neighbour(LastArray(spacing), n);
  }

  lemma Neighbour(c: int, n: int)
    ensures (c + 1) * n == c * n + n && (c - 1) * n == c * n - n
  {}

  /** A valid start index is a multiple. */
  lemma ValidIsMultiple(start: int, spacing: nat)
    requires 0 < spacing && CheckIsValidStartIndex(start, spacing)
    ensures start == ArrayOf(start, spacing) * TickCount(spacing)
  {
    var n := TickCount(spacing);
    StartIndexIsFloor(start, spacing);
    StartIndexIsFloor(MIN_TICK, spacing);
    if MIN_TICK <= start <= MAX_TICK {
      var q := TruncDiv(start, n);
      if start < 0 {
        assert -start == (-start / n) * n + -start % n;
        NegMul(-start / n, n);
      } else {
        assert start == (start / n) * n + start % n;
      }
      assert start == q * n;
      StartOfArray(q, spacing);
    } else {
      StartOfArray(FirstArray(spacing), spacing);
    }
  }

  /** The bit of an array in the pool's bitmap. */
  lemma PoolBit(c: int, spacing: nat)
    requires 0 < spacing
    ensures BitPosition(c * TickCount(spacing), spacing) == c + 512
    ensures MaxTickInBitmap(spacing) == 512 * TickCount(spacing) && -MaxTickInBitmap(spacing) == (-512) * TickCount(spacing)
  {
    ExactDivision(c, TickCount(spacing));
    NegMul(512, TickCount(spacing));
  }

  // -----------------------------------------------------------------------------------------
  // The set of initialized arrays

  /** Array `c` is marked as initialized. Each array has exactly one bit, in one of the bitmaps. */
  ghost predicate IsSet(pool: nat, e: Extension, c: int) {
    if -512 <= c < 512 then Bit(pool, c + 512)
    else
      var i, bitmaps := ExtensionIndex(c), if c < 0 then e.negative else e.positive;
      0 <= i < |bitmaps| && Bit(bitmaps[i], c % 512)
  }

  /** Only arrays that reach into the tick range are ever marked. */
  ghost predicate WithinRange(pool: nat, e: Extension, spacing: nat)
    requires 0 < spacing
  {
    forall c :: IsSet(pool, e, c) ==> FirstArray(spacing) <= c <= LastArray(spacing)
  }

  ghost predicate Clear(pool: nat, e: Extension, low: int, high: int) {
    forall c :: low <= c <= high ==> !IsSet(pool, e, c)
  }

  /** `c` is the nearest marked array beyond `from`. */
  ghost predicate Nearest(pool: nat, e: Extension, from: int, c: int, zeroForOne: bool) {
    IsSet(pool, e, c) && if zeroForOne then c < from && Clear(pool, e, c + 1, from - 1) else from < c && Clear(pool, e, from + 1, c - 1)
  }

  /** Everything between `from`, exclusive, and `to`, inclusive, is clear. */
  ghost predicate ClearUpTo(pool: nat, e: Extension, from: int, to: int, zeroForOne: bool) {
    if zeroForOne then to <= from && Clear(pool, e, to, from - 1) else from <= to && Clear(pool, e, from + 1, to)
  }

  function Step(c: int, zeroForOne: bool): int { if zeroForOne then c - 1 else c + 1 }

  predicate InPoolRange(c: int) { -512 <= c < 512 }

  // -----------------------------------------------------------------------------------------
  // One bitmap at a time

  /** What the pool's bitmap answers for array `c`. */
  lemma PoolStep(pool: nat, e: Extension, c: int, spacing: nat, zeroForOne: bool) returns (found: bool, c': int)
    requires 0 < spacing && pool < Pow2(1024) && FirstArray(spacing) <= c <= LastArray(spacing)
    ensures NextInPool(pool, c * TickCount(spacing), spacing, zeroForOne) == Ok((found, c' * TickCount(spacing)))
    ensures found ==> Nearest(pool, e, c, c', zeroForOne)
    ensures !found ==> ClearUpTo(pool, e, c, c', zeroForOne) && !InPoolRange(Step(c', zeroForOne))
  {
    hide Bit, Kept, Dropped, Shifted, Width, Zeros, Nearest;
    var n, d := TickCount(spacing), Step(c, zeroForOne);
    ValidStart(c, spacing);
    Neighbour(c, n);
    PoolBit(d, spacing);
    CompareArrays(d, -512, n);
    CompareArrays(d, 512, n);
    if !InPoolRange(d) {
      found, c' := false, c;
    } else if zeroForOne {
      found, c' := PoolDown(pool, e, d);
      Neighbour(512, n);
    } else {
      found, c' := PoolUp(pool, e, d);
      Neighbour(512, n);
    }
  }

  lemma PoolDown(pool: nat, e: Extension, d: int) returns (found: bool, c': int)
    requires pool < Pow2(1024) && InPoolRange(d)
    ensures var shifted := Kept(Shifted(pool, 1024 - (d + 512) - 1), 1024);
            found == (shifted != 0) && (found ==> c' == d + 512 - (1024 - Width(shifted)) - 512) && (!found ==> c' == -512)
    ensures found ==> Nearest(pool, e, d + 1, c', true)
    ensures !found ==> ClearUpTo(pool, e, d + 1, c', true)
  {
    hide Bit, Kept, Shifted, Width;
    var p := d + 512;
    BigNum.LeadingZerosFindsHighest(pool, p, 1024);
    var shifted := Kept(Shifted(pool, 1024 - p - 1), 1024);
    found := shifted != 0;
    c' := if found then p - (1024 - Width(shifted)) - 512 else -512;
  }

  lemma PoolUp(pool: nat, e: Extension, d: int) returns (found: bool, c': int)
    requires pool < Pow2(1024) && InPoolRange(d)
    ensures var shifted := Dropped(pool, d + 512);
            found == (shifted != 0) && (found ==> c' == d + 512 + Zeros(shifted) - 512) && (!found ==> c' == 511)
    ensures found ==> Nearest(pool, e, d - 1, c', false)
    ensures !found ==> ClearUpTo(pool, e, d - 1, c', false)
  {
    hide Bit, Dropped, Zeros, Width, Shifted;
    var p := d + 512;
    BigNum.TrailingZerosFindsLowest(pool, p);
    var shifted := Dropped(pool, p);
    found := shifted != 0;
    c' := if found then p + Zeros(shifted) - 512 else 511;
    if found {
      WidthWithin(pool, 1024);
      if p + Zeros(shifted) >= 1024 { NoBitsAbove(pool, p + Zeros(shifted)); }
    }
  }

  /** Where the pool's bitmap gives up. */
  lemma PoolStepBack(pool: nat, c: int, spacing: nat, zeroForOne: bool) returns (c': int)
    requires 0 < spacing
    requires var r := NextInPool(pool, c * TickCount(spacing), spacing, zeroForOne); r.Ok? && !r.value.0
    ensures NextInPool(pool, c * TickCount(spacing), spacing, zeroForOne) == Ok((false, c' * TickCount(spacing)))
    ensures if zeroForOne then c' <= c else c <= c'
  {
    hide Bit, Kept, Dropped, Shifted, Width, Zeros;
    var n, d := TickCount(spacing), Step(c, zeroForOne);
    Neighbour(c, n);
    Neighbour(512, n);
    PoolBit(d, spacing);
    CompareArrays(d, -512, n);
    CompareArrays(d, 512, n);
    c' := if !InPoolRange(d) then c else if zeroForOne then -512 else 511;
  }

  lemma ExtensionStepBack(e: Extension, c: int, spacing: nat, zeroForOne: bool) returns (c': int)
    requires 0 < spacing
    requires var r := NextInExtension(e, c * TickCount(spacing), spacing, zeroForOne); r.Ok? && !r.value.0
    ensures NextInExtension(e, c * TickCount(spacing), spacing, zeroForOne) == Ok((false, c' * TickCount(spacing)))
    ensures if zeroForOne then c' < c else c < c'
  {
    hide Bit, Kept, Dropped, Shifted, Width, Zeros, GetBitmap;
    var n, d := TickCount(spacing), Step(c, zeroForOne);
    Neighbour(c, n);
    ValidStart(d, spacing);
    CompareArrays(d, FirstArray(spacing), n);
    CompareArrays(LastArray(spacing), d, n);
    BoundaryOfArray(d, spacing);
    Neighbour(Base(d) + 512, n);
    c' := if !(FirstArray(spacing) <= d <= LastArray(spacing)) then d else if zeroForOne then Base(d) else Base(d) + 511;
  }

  /** Every round of the search moves on. */
  lemma SearchProgresses(pool: nat, e: Extension, last: int, spacing: nat, zeroForOne: bool)
    requires 0 < spacing
    requires var r := NextInPool(pool, last, spacing, zeroForOne);
             r.Ok? && !r.value.0 &&
             var x := NextInExtension(e, r.value.1, spacing, zeroForOne);
             x.Ok? && !x.value.0
    ensures var start := NextInExtension(e, NextInPool(pool, last, spacing, zeroForOne).value.1, spacing, zeroForOne).value.1;
            if zeroForOne then start < last else last < start
  {
    hide NextInExtension;
    var n := TickCount(spacing);
    assert CheckIsValidStartIndex(last, spacing);
    ValidIsMultiple(last, spacing);
    hide NextInPool;
    var c := ArrayOf(last, spacing);
    var c1 := PoolStepBack(pool, c, spacing, zeroForOne);
    var c2 := ExtensionStepBack(e, c1, spacing, zeroForOne);
    CompareArrays(c2, c, n);
  }

  // -----------------------------------------------------------------------------------------
  // One extension bitmap

  /** The extension covers every array outside the pool's bitmap that reaches into the tick range. */
  lemma ExtensionCovers(d: int, spacing: nat)
    requires 0 < spacing && FirstArray(spacing) <= d <= LastArray(spacing) && !InPoolRange(d)
    ensures CheckExtensionBoundary(d * TickCount(spacing), spacing).Ok?
    ensures 0 <= ExtensionIndex(d) < EXTENSION_TICKARRAY_BITMAP_SIZE
  {
    var n := TickCount(spacing);
    PoolBit(d, spacing);
    StartIndexIsFloor(MIN_TICK, spacing);
    StartIndexIsFloor(MAX_TICK, spacing);
    Neighbour(FirstArray(spacing), n);
    CompareArrays(d, -512, n);
    CompareArrays(d, 512, n);
    if d < 0 {
      MulLe(FirstArray(spacing) + 1, -512, n);
      if FirstArray(spacing) + 1 <= -7394 { MulLe(FirstArray(spacing) + 1, -7394, n); }
    } else {
      MulLe(512, LastArray(spacing), n);
      if LastArray(spacing) >= 7394 { MulLe(7394, LastArray(spacing), n); }
    }
    NotExactly(spacing);
  }

  /** No spacing puts the pool's boundary exactly on the last tick. */
  lemma NotExactly(spacing: nat)
    ensures MaxTickInBitmap(spacing) != MAX_TICK && -MaxTickInBitmap(spacing) != MIN_TICK
  {}

  /** What one extension bitmap answers for array `c`. */
  lemma ExtensionStep(pool: nat, e: Extension, c: int, spacing: nat, zeroForOne: bool) returns (found: bool, c': int)
    requires 0 < spacing && ValidExtension(e) && WithinRange(pool, e, spacing) && !InPoolRange(Step(c, zeroForOne))
    ensures NextInExtension(e, c * TickCount(spacing), spacing, zeroForOne) == Ok((found, c' * TickCount(spacing)))
    ensures found ==> Nearest(pool, e, c, c', zeroForOne)
    ensures !found ==> ClearUpTo(pool, e, c, c', zeroForOne) && (if zeroForOne then c' < c else c < c')
  {
    hide Bit, Kept, Dropped, Shifted, Width, Zeros, IsSet, NextInBitmap;
    var n, d := TickCount(spacing), Step(c, zeroForOne);
    Neighbour(c, n);
    ValidStart(d, spacing);
    CompareArrays(d, FirstArray(spacing), n);
    CompareArrays(LastArray(spacing), d, n);
    if !(FirstArray(spacing) <= d <= LastArray(spacing)) {
      found, c' := false, d;
    } else {
      ExtensionCovers(d, spacing);
      OffsetIndexOfArray(d, spacing);
      AbsOfArray(d, n);
      var bitmap := (if d < 0 then e.negative else e.positive)[ExtensionIndex(d)];
      found, c' := BitmapStep(pool, e, d, bitmap, spacing, zeroForOne);
    }
  }

  lemma BitmapStep(pool: nat, e: Extension, d: int, bitmap: nat, spacing: nat, zeroForOne: bool) returns (found: bool, c': int)
    requires 0 < spacing && ValidExtension(e) && !InPoolRange(d) && 0 <= ExtensionIndex(d) < EXTENSION_TICKARRAY_BITMAP_SIZE
    requires bitmap == (if d < 0 then e.negative else e.positive)[ExtensionIndex(d)]
    ensures NextInBitmap(bitmap, d * TickCount(spacing), spacing, zeroForOne) == Ok((found, c' * TickCount(spacing)))
    ensures var from := if zeroForOne then d + 1 else d - 1;
            (found ==> Nearest(pool, e, from, c', zeroForOne)) &&
            (!found ==> ClearUpTo(pool, e, from, c', zeroForOne) && c' != from)
  {
    hide Bit, Kept, Dropped, Shifted, Width, Zeros, IsSet;
    var n := TickCount(spacing);
    OffsetOfArray(d, spacing);
    BoundaryOfArray(d, spacing);
    Neighbour(Base(d) + 512, n);
    if zeroForOne {
      var shifted := Kept(Shifted(bitmap, 512 - 1 - d % 512), 512);
      found, c' := shifted != 0, if shifted != 0 then d - (512 - Width(shifted)) else Base(d);
      MulDifference(d, 512 - Width(shifted), n);
      BitmapDown(pool, e, d, bitmap);
    } else {
      var shifted := Dropped(bitmap, d % 512);
      found, c' := shifted != 0, if shifted != 0 then d + Zeros(shifted) else Base(d) + 511;
      if shifted != 0 { MulDifference(d, 0 - Zeros(shifted), n); }
      BitmapUp(pool, e, d, bitmap);
    }
  }

  lemma MulDifference(d: int, k: int, n: int)
    ensures d * n - k * n == (d - k) * n && d * n + (-k) * n == (d - k) * n
  {}

  /** Arrays of one extension bitmap. */
  lemma SameBitmap(pool: nat, e: Extension, d: int, c: int, bitmap: nat)
    requires ValidExtension(e) && !InPoolRange(d) && 0 <= ExtensionIndex(d) < EXTENSION_TICKARRAY_BITMAP_SIZE
    requires bitmap == (if d < 0 then e.negative else e.positive)[ExtensionIndex(d)]
    requires Base(d) <= c < Base(d) + 512
    ensures IsSet(pool, e, c) <==> Bit(bitmap, c - Base(d))
    ensures 0 <= d - Base(d) < 512 && d % 512 == d - Base(d)
  {
    assert c % 512 == c - Base(d);
    assert !InPoolRange(c) && (c < 0 <==> d < 0) && ExtensionIndex(c) == ExtensionIndex(d);
  }

  lemma BitmapDown(pool: nat, e: Extension, d: int, bitmap: nat)
    requires ValidExtension(e) && !InPoolRange(d) && 0 <= ExtensionIndex(d) < EXTENSION_TICKARRAY_BITMAP_SIZE
    requires bitmap == (if d < 0 then e.negative else e.positive)[ExtensionIndex(d)]
    ensures var shifted := Kept(Shifted(bitmap, 512 - 1 - d % 512), 512);
            if shifted != 0 then Nearest(pool, e, d + 1, d - (512 - Width(shifted)), true)
            else ClearUpTo(pool, e, d + 1, Base(d), true)
  {
    hide Bit, Kept, Shifted, Width, IsSet;
    var p := d % 512;
    SameBitmap(pool, e, d, d, bitmap);
    BigNum.LeadingZerosFindsHighest(bitmap, p, 512);
    forall c | Base(d) <= c < Base(d) + 512 ensures IsSet(pool, e, c) <==> Bit(bitmap, c - Base(d)) {
      SameBitmap(pool, e, d, c, bitmap);
    }
  }

  lemma BitmapUp(pool: nat, e: Extension, d: int, bitmap: nat)
    requires ValidExtension(e) && !InPoolRange(d) && 0 <= ExtensionIndex(d) < EXTENSION_TICKARRAY_BITMAP_SIZE
    requires bitmap == (if d < 0 then e.negative else e.positive)[ExtensionIndex(d)]
    ensures var shifted := Dropped(bitmap, d % 512);
            if shifted != 0 then Nearest(pool, e, d - 1, d + Zeros(shifted), false)
            else ClearUpTo(pool, e, d - 1, Base(d) + 511, false)
  {
    hide Bit, Dropped, Zeros, IsSet, Width, Shifted;
    var p := d % 512;
    SameBitmap(pool, e, d, d, bitmap);
    BigNum.TrailingZerosFindsLowest(bitmap, p);
    var shifted := Dropped(bitmap, p);
    WidthWithin(bitmap, 512);
    if shifted != 0 && p + Zeros(shifted) >= 512 { NoBitsAbove(bitmap, p + Zeros(shifted)); }
    forall c | Base(d) <= c < Base(d) + 512 ensures IsSet(pool, e, c) <==> Bit(bitmap, c - Base(d)) {
      SameBitmap(pool, e, d, c, bitmap);
    }
  }

  // -----------------------------------------------------------------------------------------
  // The whole search

  /** What the search should return. */
  ghost predicate IsAnswer(pool: nat, e: Extension, spacing: nat, from: int, r: Option<int>, zeroForOne: bool) {
    match r
    case None => forall c :: IsSet(pool, e, c) ==> if zeroForOne then from <= c else c <= from
    case Some(start) => exists c :: start == c * TickCount(spacing) && Nearest(pool, e, from, c, zeroForOne)
  }

  /** Clear arrays in between do not matter. */
  lemma NearestFurtherOn(pool: nat, e: Extension, from: int, mid: int, c: int, zeroForOne: bool)
    requires ClearUpTo(pool, e, from, mid, zeroForOne) && Nearest(pool, e, mid, c, zeroForOne)
    ensures Nearest(pool, e, from, c, zeroForOne)
  {
    hide IsSet;
  }

  lemma ClearFurtherOn(pool: nat, e: Extension, from: int, mid: int, to: int, zeroForOne: bool)
    requires ClearUpTo(pool, e, from, mid, zeroForOne) && ClearUpTo(pool, e, mid, to, zeroForOne) && mid != to
    ensures ClearUpTo(pool, e, from, to, zeroForOne) && from != to
  {
    hide IsSet;
  }

  lemma AnswerFurtherOn(pool: nat, e: Extension, spacing: nat, from: int, mid: int, r: Option<int>, zeroForOne: bool)
    requires ClearUpTo(pool, e, from, mid, zeroForOne) && IsAnswer(pool, e, spacing, mid, r, zeroForOne)
    ensures IsAnswer(pool, e, spacing, from, r, zeroForOne)
  {
    hide IsSet, Nearest;
    if r.Some? {
      var c :| r.value == c * TickCount(spacing) && Nearest(pool, e, mid, c, zeroForOne);
      NearestFurtherOn(pool, e, from, mid, c, zeroForOne);
    }
  }

  /** With the extension supplied the search ends, never errs, and returns exactly the nearest marked
      array in its direction, or None when there is none. */
  lemma {:induction false} SearchIsNearest(pool: nat, e: Extension, c: int, spacing: nat, zeroForOne: bool)
    requires 0 < spacing && pool < Pow2(1024) && ValidExtension(e) && WithinRange(pool, e, spacing)
    requires FirstArray(spacing) <= c <= LastArray(spacing)
    ensures var r := SearchFrom(pool, Some(e), c * TickCount(spacing), spacing, zeroForOne);
            r.Ok? && IsAnswer(pool, e, spacing, c, r.value, zeroForOne)
    decreases if zeroForOne then Above(c * TickCount(spacing)) else Beneath(c * TickCount(spacing))
  {
    hide IsSet, Nearest, NextInPool, NextInExtension, WithinRange, ValidExtension, ClearUpTo, Shifted, CheckIsValidStartIndex, IsAnswer;
    var n := TickCount(spacing);
    var found, c1 := PoolStep(pool, e, c, spacing, zeroForOne);
    if found {
      AnswerFound(pool, e, spacing, c, c1, zeroForOne);
    } else {
      var found2, c2 := ExtensionStep(pool, e, c1, spacing, zeroForOne);
      if found2 {
        NearestFurtherOn(pool, e, c, c1, c2, zeroForOne);
        AnswerFound(pool, e, spacing, c, c2, zeroForOne);
      } else {
        ClearFurtherOn(pool, e, c, c1, c2, zeroForOne);
        if c2 * n < MIN_TICK || c2 * n > MAX_TICK {
          AnswerNone(pool, e, spacing, c, c2, zeroForOne);
        } else {
          SearchProgresses(pool, e, c * n, spacing, zeroForOne);
          StartInRange(c2, spacing);
          SearchIsNearest(pool, e, c2, spacing, zeroForOne);
          AnswerFurtherOn(pool, e, spacing, c, c2, SearchFrom(pool, Some(e), c2 * n, spacing, zeroForOne).value, zeroForOne);
        }
      }
    }
  }

  lemma AnswerFound(pool: nat, e: Extension, spacing: nat, from: int, c: int, zeroForOne: bool)
    requires Nearest(pool, e, from, c, zeroForOne)
    ensures IsAnswer(pool, e, spacing, from, Some(c * TickCount(spacing)), zeroForOne)
  {
    hide Nearest;
  }

  /** Past either end of the tick range nothing is marked. */
  lemma AnswerNone(pool: nat, e: Extension, spacing: nat, from: int, c: int, zeroForOne: bool)
    requires 0 < spacing && WithinRange(pool, e, spacing) && ClearUpTo(pool, e, from, c, zeroForOne)
    requires FirstArray(spacing) <= from <= LastArray(spacing) && c != from
    requires c * TickCount(spacing) < MIN_TICK || c * TickCount(spacing) > MAX_TICK
    ensures IsAnswer(pool, e, spacing, from, None, zeroForOne)
  {
    hide IsSet;
    var n := TickCount(spacing);
    StartIndexIsFloor(MIN_TICK, spacing);
    StartIndexIsFloor(MAX_TICK, spacing);
    CompareArrays(FirstArray(spacing) + 1, c, n);
    Neighbour(FirstArray(spacing), n);
    CompareArrays(c, LastArray(spacing), n);
    assert c <= FirstArray(spacing) || c > LastArray(spacing);
  }

  lemma StartInRange(c: int, spacing: nat)
    requires 0 < spacing && MIN_TICK <= c * TickCount(spacing) <= MAX_TICK
    ensures FirstArray(spacing) <= c <= LastArray(spacing)
  {
    var n := TickCount(spacing);
    StartIndexIsFloor(MIN_TICK, spacing);
    StartIndexIsFloor(MAX_TICK, spacing);
    Neighbour(LastArray(spacing), n);
    CompareArrays(c, FirstArray(spacing), n);
    CompareArrays(LastArray(spacing) + 1, c, n);
  }

  /** The same from any tick: the search starts at the array the tick lies in. */
  lemma NextInitializedArrayIsNearest(pool: nat, e: Extension, tick: int, spacing: nat, zeroForOne: bool)
    requires 0 < spacing && pool < Pow2(1024) && ValidExtension(e) && WithinRange(pool, e, spacing)
    requires FirstArray(spacing) <= ArrayOf(tick, spacing) <= LastArray(spacing)
    ensures var r := NextInitializedArray(pool, Some(e), tick, spacing, zeroForOne);
            r.Ok? && IsAnswer(pool, e, spacing, ArrayOf(tick, spacing), r.value, zeroForOne)
  {
    StartIndexIsFloor(tick, spacing);
    SearchIsNearest(pool, e, ArrayOf(tick, spacing), spacing, zeroForOne);
  }
}
