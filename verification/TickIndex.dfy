/** Tick arrays and the bits that say which of them are initialized, and how both follow the ticks
    (programs/amm/src/states/tick_array.rs, states/pool.rs, states/tickarray_bitmap_extension.rs). */
module TickIndex {
  import opened Wrappers
  import opened FullMath
  import opened PoolTypes
  import opened Bits
  import BigNum
  import opened ArrayIndex
  import opened NearestArray

  /** `TickArrayState`: 60 slots, `spacing` apart from `start` on. */
  datatype TickArray = TickArray(start: int, ticks: seq<TickState>, count: nat)

  /** The accounts of the index. `arrays` is keyed by array number, which determines the start index
      and with it the account's address. */
  datatype Index = Index(arrays: map<int, TickArray>, bitmap: nat, extension: Extension)

  function EmptyTicks(): (r: seq<TickState>)
    ensures |r| == TICK_ARRAY_SIZE && forall k :: 0 <= k < |r| ==> r[k] == DEFAULT_TICK
  {
    seq(TICK_ARRAY_SIZE, k => DEFAULT_TICK)
  }

  function NewArray(c: int, spacing: nat): TickArray {
    TickArray(c * TickCount(spacing), EmptyTicks(), 0)
  }

  // -----------------------------------------------------------------------------------------
  // Flipping a bit

  /** `bitmap ^ (one << k)`, as BigNum.FlipBit computes it */
  function FlipAt(bitmap: nat, k: nat): nat {
    BigNum.WordXor(bitmap, Pow2(k))
  }

  lemma FlipAtToggles(bitmap: nat, k: nat, n: nat)
    requires bitmap < Pow2(n) && k < n
    ensures FlipAt(bitmap, k) < Pow2(n)
    ensures forall j: nat :: Bit(FlipAt(bitmap, k), j) <==> Bit(bitmap, j) != (j == k)
  {
    hide Shifted, Bit, BigNum.WordXor;
    BigNum.Pow2Le(k + 1, n);
    ShiftedTwice(1, k, 1);
    BigNum.ShiftedOnce(Pow2(k));
    ShiftedLe(1, 1, k);
    BigNum.XorFits(bitmap, Pow2(k), n);
    forall j: nat ensures Bit(FlipAt(bitmap, k), j) <==> Bit(bitmap, j) != (j == k) {
      BigNum.BitOfXor(bitmap, Pow2(k), j);
      BigNum.OnlyBit(k, j);
    }
  }

  /** `tick_range` */
  function TickRange(spacing: nat): (int, int) {
    var max := MaxTickInBitmap(spacing);
    (if max > MAX_TICK then MAX_TICK else max, if -max < MIN_TICK then MIN_TICK else -max)
  }

  /** `is_overflow_default_tickarray_bitmap` for one start index */
  predicate Overflows(tick: int, spacing: nat)
    requires 0 < spacing
  {
    var (max, min) := TickRange(spacing);
    var start := GetArrayStartIndex(tick, spacing);
    start >= max || start < min
  }

  /** `flip_tick_array_bit` */
  function FlipArray(ix: Index, start: int, spacing: nat, supplied: bool): Result<Index>
    requires 0 < spacing
  {
    if Overflows(start, spacing) then
      if !supplied then Err(MissingTickArrayBitmapExtensionAccount)
      else
        var (offset, bitmap) :- GetBitmap(ix.extension, start, spacing);
        var bit := OffsetInBitmap(start, spacing);
        if bit < 0 then Err(Overflow)
        else
          var flipped := FlipAt(bitmap, bit);
          Ok(ix.(extension := if start < 0 then ix.extension.(negative := ix.extension.negative[offset := flipped])
                              else ix.extension.(positive := ix.extension.positive[offset := flipped])))
    else
      var _ :- Require(CheckIsValidStartIndex(start, spacing), InvalidTickIndex);
      var bit := TruncDiv(start, TickCount(spacing)) + TICK_ARRAY_BITMAP_SIZE;
      if bit < 0 then Err(Overflow) else Ok(ix.(bitmap := FlipAt(ix.bitmap, bit)))
  }

  lemma GetBitmapInRange(e: Extension, index: int, spacing: nat)
    requires 0 < spacing && GetBitmap(e, index, spacing).Ok?
    ensures var bitmaps := if index < 0 then e.negative else e.positive;
            GetBitmap(e, index, spacing).value.0 < |bitmaps|
  {}

  ghost predicate ValidBitmaps(ix: Index) {
    ix.bitmap < Pow2(1024) && ValidExtension(ix.extension)
  }

  /** Array `c`'s bit is set. */
  ghost predicate Marked(ix: Index, c: int) {
    IsSet(ix.bitmap, ix.extension, c)
  }

  /** Exactly the bit of array `c0` differs. */
  ghost predicate Toggled(ix: Index, ix': Index, c0: int) {
    ix'.arrays == ix.arrays && ValidBitmaps(ix') && forall c :: Marked(ix', c) <==> Marked(ix, c) != (c == c0)
  }

  /** The arrays whose bit the program cannot flip: from spacing 15 on the pool's bitmap spans all ticks,
      yet the array that starts below the first tick is sent to the extension, which refuses it. */
  predicate Refused(c: int, spacing: nat) {
    MaxTickInBitmap(spacing) > MAX_TICK && c * TickCount(spacing) < MIN_TICK
  }

  /** The route a flip takes. */
  lemma RouteOfArray(c: int, spacing: nat)
    requires 0 < spacing && FirstArray(spacing) <= c <= LastArray(spacing)
    ensures Overflows(c * TickCount(spacing), spacing) <==> Refused(c, spacing) || !InPoolRange(c)
    ensures Refused(c, spacing) ==> CheckExtensionBoundary(c * TickCount(spacing), spacing).Err?
    ensures MaxTickInBitmap(spacing) > MAX_TICK ==> InPoolRange(c)
  {
    var n := TickCount(spacing);
    StartOfArray(c, spacing);
    StartIndexIsFloor(c * n, spacing);
    StartIndexIsFloor(MIN_TICK, spacing);
    StartIndexIsFloor(MAX_TICK, spacing);
    PoolBit(c, spacing);
    NotExactly(spacing);
    CompareArrays(c, -512, n);
    CompareArrays(c, 512, n);
    CompareArrays(LastArray(spacing), c, n);
    CompareArrays(c, FirstArray(spacing), n);
    CompareArrays(512, LastArray(spacing) + 1, n);
    CompareArrays(FirstArray(spacing), -512, n);
    CompareArrays(FirstArray(spacing) + 1, -512, n);
    Neighbour(FirstArray(spacing), n);
    Neighbour(LastArray(spacing), n);
    NoTickAtEdge(c, spacing);
  }

  /** No array starts exactly at the last tick. */
  lemma NoTickAtEdge(c: int, spacing: nat)
    ensures c * TickCount(spacing) != MAX_TICK
  {
    assert c * (60 * spacing) == 60 * (c * spacing);
    assert MAX_TICK % 60 != 0;
  }

  /** The extension account is there when array `c` needs it. */
  predicate Supplied(c: int, supplied: bool) {
    supplied || InPoolRange(c)
  }

  /** A flip succeeds exactly for the arrays that are not refused, given the extension where it is
      needed, and then toggles exactly the bit of its array. */
  lemma FlipToggles(ix: Index, c: int, spacing: nat, supplied: bool)
    requires 0 < spacing && ValidBitmaps(ix) && FirstArray(spacing) <= c <= LastArray(spacing)
    ensures var r := FlipArray(ix, c * TickCount(spacing), spacing, supplied);
            (r.Ok? <==> !Refused(c, spacing) && Supplied(c, supplied)) && (r.Ok? ==> Toggled(ix, r.value, c))
  {
    hide FlipAt, Shifted, Bit;
    var n := TickCount(spacing);
    RouteOfArray(c, spacing);
    ValidStart(c, spacing);
    OffsetIndexOfArray(c, spacing);
    if Refused(c, spacing) {
    } else if InPoolRange(c) {
      ExactDivision(c, n);
      FlipAtToggles(ix.bitmap, c + 512, 1024);
      var ix' := ix.(bitmap := FlipAt(ix.bitmap, c + 512));
      forall d ensures Marked(ix', d) <==> Marked(ix, d) != (d == c) {}
    } else {
      ExtensionCovers(c, spacing);
      OffsetOfArray(c, spacing);
      AbsOfArray(c, n);
      FlipInExtension(ix, c);
    }
  }

  lemma FlipInExtension(ix: Index, c: int)
    requires ValidBitmaps(ix) && !InPoolRange(c) && 0 <= ExtensionIndex(c) < EXTENSION_TICKARRAY_BITMAP_SIZE
    ensures var e, i := ix.extension, ExtensionIndex(c);
            var flipped := FlipAt((if c < 0 then e.negative else e.positive)[i], c % 512);
            Toggled(ix, ix.(extension := if c < 0 then e.(negative := e.negative[i := flipped]) else e.(positive := e.positive[i := flipped])), c)
  {
    hide FlipAt, Shifted, Bit;
    var e, i := ix.extension, ExtensionIndex(c);
    var bitmap := (if c < 0 then e.negative else e.positive)[i];
    FlipAtToggles(bitmap, c % 512, 512);
    var flipped := FlipAt(bitmap, c % 512);
    var ix' := ix.(extension := if c < 0 then e.(negative := e.negative[i := flipped]) else e.(positive := e.positive[i := flipped]));
    forall d ensures Marked(ix', d) <==> Marked(ix, d) != (d == c) { OneBitPerArray(c, d); }
  }

  /** Different arrays have different bits. */
  lemma OneBitPerArray(c: int, d: int)
    ensures ExtensionIndex(c) == ExtensionIndex(d) && c % 512 == d % 512 && (c < 0 <==> d < 0) && !InPoolRange(c) && !InPoolRange(d) ==> c == d
  {}

  /** With spacing 60 the array of the first tick is such a case. */
  lemma RefusedExample()
    ensures FirstArray(60) == -124 && Refused(-124, 60)
    ensures forall ix: Index :: FlipArray(ix, -446400, 60, true).Err?
  {
    forall ix: Index ensures FlipArray(ix, -446400, 60, true).Err? {
      assert GetArrayStartIndex(-446400, 60) == -446400;
    }
  }

  // -----------------------------------------------------------------------------------------
  // Slots

  predicate Aligned(tick: int, spacing: nat)
    requires 0 < spacing
  {
    tick % spacing == 0
  }

  /** Offset of a tick in its array. */
  function SlotNumber(tick: int, spacing: nat): int
    requires 0 < spacing
  {
    (tick - ArrayOf(tick, spacing) * TickCount(spacing)) / spacing
  }

  /** An aligned tick is slot k of array c exactly when it is (60 c + k) * spacing. */
  lemma SlotOfTick(tick: int, spacing: nat)
    requires 0 < spacing && Aligned(tick, spacing)
    ensures var c, k := ArrayOf(tick, spacing), SlotNumber(tick, spacing);
            0 <= k < TICK_ARRAY_SIZE && tick == c * TickCount(spacing) + k * spacing
  {
    var q := tick / spacing;
    assert tick == q * spacing;
    TickOfSlot(q / 60, q % 60, spacing);
    SlotTick(q / 60, q % 60, spacing);
  }

  lemma SlotTick(c: int, k: int, spacing: nat)
    ensures (60 * c + k) * spacing == c * TickCount(spacing) + k * spacing
  {}

  lemma TickOfSlot(c: int, k: int, spacing: nat)
    requires 0 < spacing && 0 <= k < TICK_ARRAY_SIZE
    ensures var tick := c * TickCount(spacing) + k * spacing;
            Aligned(tick, spacing) && ArrayOf(tick, spacing) == c && SlotNumber(tick, spacing) == k
  {
    var tick := c * TickCount(spacing) + k * spacing;
    MulLe(k, 59, spacing);
    MulLe(0, k, spacing);
    QuotientIs(tick, TickCount(spacing), c);
    QuotientIs(k * spacing, spacing, k);
    SlotTick(c, k, spacing);
    QuotientIs((60 * c + k) * spacing, spacing, 60 * c + k);
  }

  /** The arrays have their shape. */
  ghost predicate WellFormed(ix: Index, spacing: nat)
    requires 0 < spacing
  {
    forall c :: c in ix.arrays ==>
      && FirstArray(spacing) <= c <= LastArray(spacing)
      && ix.arrays[c].start == c * TickCount(spacing)
      && |ix.arrays[c].ticks| == TICK_ARRAY_SIZE
  }

  /** What the index stores for an aligned tick. */
  ghost function SlotAt(ix: Index, tick: int, spacing: nat): TickState
    requires 0 < spacing && WellFormed(ix, spacing) && Aligned(tick, spacing)
  {
    SlotOfTick(tick, spacing);
    var c := ArrayOf(tick, spacing);
    if c in ix.arrays then ix.arrays[c].ticks[SlotNumber(tick, spacing)] else DEFAULT_TICK
  }

  /** The arrays hold exactly the ticks of the ledger, which are all aligned. */
  ghost predicate Represents(ix: Index, spacing: nat, ticks: map<int, TickState>)
    requires 0 < spacing && WellFormed(ix, spacing)
  {
    forall t :: TickOf(ticks, t) == if Aligned(t, spacing) then SlotAt(ix, t, spacing) else DEFAULT_TICK
  }

  /** `get_tick_offset_in_array` */
  function TickOffset(a: TickArray, tick: int, spacing: nat): Result<nat>
    requires 0 < spacing
  {
    var _ :- Require(GetArrayStartIndex(tick, spacing) == a.start, InvalidTickArray);
    var offset := TruncDiv(tick - a.start, spacing);
    if offset < 0 then Err(Overflow) else Ok(offset)
  }

  lemma TickOffsetIsSlot(a: TickArray, tick: int, spacing: nat)
    requires 0 < spacing && Aligned(tick, spacing) && a.start == ArrayOf(tick, spacing) * TickCount(spacing)
    ensures TickOffset(a, tick, spacing) == Ok(SlotNumber(tick, spacing))
  {
    SlotOfTick(tick, spacing);
    StartIndexIsFloor(tick, spacing);
  }

  // -----------------------------------------------------------------------------------------
  // Writing a slot

  /** `update_tick_state` */
  ghost function WithSlot(ix: Index, tick: int, spacing: nat, state: TickState): Index
    requires 0 < spacing && WellFormed(ix, spacing) && Aligned(tick, spacing) && ArrayOf(tick, spacing) in ix.arrays
  {
    SlotOfTick(tick, spacing);
    var c := ArrayOf(tick, spacing);
    var a := ix.arrays[c];
    ix.(arrays := ix.arrays[c := a.(ticks := a.ticks[SlotNumber(tick, spacing) := state])])
  }

  lemma SlotAfterWrite(ix: Index, tick: int, spacing: nat, state: TickState, t: int)
    requires 0 < spacing && WellFormed(ix, spacing) && Aligned(tick, spacing) && ArrayOf(tick, spacing) in ix.arrays
    requires Aligned(t, spacing)
    ensures WellFormed(WithSlot(ix, tick, spacing, state), spacing)
    ensures SlotAt(WithSlot(ix, tick, spacing, state), t, spacing) == if t == tick then state else SlotAt(ix, t, spacing)
  {
    hide ArrayOf, SlotNumber, TickCount, Aligned;
    SlotOfTick(t, spacing);
    SlotOfTick(tick, spacing);
  }

  lemma WithSlotRepresents(ix: Index, tick: int, spacing: nat, state: TickState, ticks: map<int, TickState>)
    requires 0 < spacing && WellFormed(ix, spacing) && Aligned(tick, spacing) && ArrayOf(tick, spacing) in ix.arrays
    requires Represents(ix, spacing, ticks)
    ensures var ix' := WithSlot(ix, tick, spacing, state);
            WellFormed(ix', spacing) && Represents(ix', spacing, ticks[tick := state])
  {
    SlotAfterWrite(ix, tick, spacing, state, tick);
    var ix' := WithSlot(ix, tick, spacing, state);
    forall t ensures TickOf(ticks[tick := state], t) == if Aligned(t, spacing) then SlotAt(ix', t, spacing) else DEFAULT_TICK {
      hide ArrayOf, SlotNumber, TickCount, Aligned, WithSlot;
      if Aligned(t, spacing) { SlotAfterWrite(ix, tick, spacing, state, t); }
    }
  }

  // -----------------------------------------------------------------------------------------
  // Counting

  function InitializedTo(ticks: seq<TickState>, n: nat): nat
    requires n <= |ticks|
  {
    if n == 0 then 0 else InitializedTo(ticks, n - 1) + (if ticks[n - 1].IsInitialized() then 1 else 0)
  }

  function Initialized(ticks: seq<TickState>): nat {
    InitializedTo(ticks, |ticks|)
  }

  lemma {:induction false} InitializedPoint(ticks: seq<TickState>, k: nat, state: TickState, n: nat)
    requires k < |ticks| && n <= |ticks|
    ensures InitializedTo(ticks[k := state], n) - InitializedTo(ticks, n)
         == if k < n then (if state.IsInitialized() then 1 else 0) - (if ticks[k].IsInitialized() then 1 else 0) else 0
  {
    if n > 0 { InitializedPoint(ticks, k, state, n - 1); }
  }

  lemma {:induction false} NoneInitialized(ticks: seq<TickState>, n: nat)
    requires n <= |ticks| && forall k :: 0 <= k < n ==> !ticks[k].IsInitialized()
    ensures InitializedTo(ticks, n) == 0
  {
    if n > 0 { NoneInitialized(ticks, n - 1); }
  }

  lemma {:induction false} SomeInitialized(ticks: seq<TickState>, n: nat)
    requires n <= |ticks|
    ensures InitializedTo(ticks, n) > 0 <==> exists k :: 0 <= k < n && ticks[k].IsInitialized()
    ensures InitializedTo(ticks, n) <= n
  {
    if n > 0 { SomeInitialized(ticks, n - 1); }
  }

  /** Bits tell which counts are positive, and no refused array has one. */
  ghost predicate BitsFollowCounts(ix: Index, spacing: nat)
    requires 0 < spacing
  {
    && WellFormed(ix, spacing)
    && ValidBitmaps(ix)
    && (forall c :: Marked(ix, c) <==> c in ix.arrays && ix.arrays[c].count > 0)
    && (forall c :: Marked(ix, c) ==> !Refused(c, spacing))
  }

  /** Bits, counts and ticks agree: an array's bit is set exactly when it holds an initialized tick, and
      its count is the number of those. */
  ghost predicate Coherent(ix: Index, spacing: nat)
    requires 0 < spacing
  {
    && BitsFollowCounts(ix, spacing)
    && forall c :: c in ix.arrays ==> ix.arrays[c].count == Initialized(ix.arrays[c].ticks)
  }

  /** `update_initialized_tick_count`, and the flip that goes with a count leaving or reaching zero. */
  function CountAndFlip(ix: Index, c: int, spacing: nat, add: bool, supplied: bool): Result<Index>
    requires 0 < spacing && c in ix.arrays
  {
    var a := ix.arrays[c];
    if add then
      var counted := ix.(arrays := ix.arrays[c := a.(count := a.count + 1)]);
      if a.count == 0 then FlipArray(counted, a.start, spacing, supplied) else Ok(counted)
    else if a.count == 0 then Err(Underflow)
    else
      var counted := ix.(arrays := ix.arrays[c := a.(count := a.count - 1)]);
      if a.count == 1 then FlipArray(counted, a.start, spacing, supplied) else Ok(counted)
  }

  lemma CountAndFlipKeepsBits(ix: Index, c: int, spacing: nat, add: bool, supplied: bool)
    requires 0 < spacing && BitsFollowCounts(ix, spacing) && c in ix.arrays
    requires CountAndFlip(ix, c, spacing, add, supplied).Ok?
    ensures var ix' := CountAndFlip(ix, c, spacing, add, supplied).value;
            && BitsFollowCounts(ix', spacing)
            && (add || ix.arrays[c].count > 0)
            && ix'.arrays == ix.arrays[c := ix.arrays[c].(count := ix.arrays[c].count + (if add then 1 else -1))]
  {
    hide IsSet, ValidExtension, Shifted;
    var a := ix.arrays[c];
    if if add then a.count == 0 else a.count == 1 {
      var counted := ix.(arrays := ix.arrays[c := a.(count := a.count + (if add then 1 else -1))]);
      FlipToggles(counted, c, spacing, supplied);
    }
  }

  /** Array `c` can be counted up, or, when it holds a tick, down. */
  predicate Countable(c: int, spacing: nat, add: bool, supplied: bool) {
    (add ==> !Refused(c, spacing)) && Supplied(c, supplied)
  }

  lemma CountAndFlipSucceeds(ix: Index, c: int, spacing: nat, add: bool, supplied: bool)
    requires 0 < spacing && BitsFollowCounts(ix, spacing) && c in ix.arrays
    requires Countable(c, spacing, add, supplied) && (add || ix.arrays[c].count > 0)
    ensures CountAndFlip(ix, c, spacing, add, supplied).Ok?
  {
    hide IsSet, ValidExtension, Shifted, TickCount, Refused;
    var a := ix.arrays[c];
    if if add then a.count == 0 else a.count == 1 {
      assert !add ==> Marked(ix, c);
      FlipToggles(ix.(arrays := ix.arrays[c := a.(count := a.count + (if add then 1 else -1))]), c, spacing, supplied);
    }
  }

  // -----------------------------------------------------------------------------------------
  // A mint or a burn

  function One(state: TickState): int {
    if state.IsInitialized() then 1 else 0
  }

  /** A write changes the number of initialized ticks in its own array only. */
  lemma CountsAfterWrite(ix: Index, tick: int, spacing: nat, state: TickState)
    requires 0 < spacing && BitsFollowCounts(ix, spacing) && Aligned(tick, spacing) && ArrayOf(tick, spacing) in ix.arrays
    ensures var ix' := WithSlot(ix, tick, spacing, state);
            && BitsFollowCounts(ix', spacing) && ix'.arrays.Keys == ix.arrays.Keys
            && forall c :: c in ix.arrays ==>
                 && ix'.arrays[c] == ix.arrays[c].(ticks := ix'.arrays[c].ticks)
                 && Initialized(ix'.arrays[c].ticks)
                    == Initialized(ix.arrays[c].ticks) + (if c == ArrayOf(tick, spacing) then One(state) - One(SlotAt(ix, tick, spacing)) else 0)
  {
    hide ArrayOf, SlotNumber, TickCount, Aligned, IsSet, ValidExtension, Shifted;
    SlotOfTick(tick, spacing);
    var a := ix.arrays[ArrayOf(tick, spacing)];
    InitializedPoint(a.ticks, SlotNumber(tick, spacing), state, |a.ticks|);
    var ix' := WithSlot(ix, tick, spacing, state);
    forall c ensures Marked(ix', c) <==> Marked(ix, c) {}
  }

  function FlipIf(flipped: bool, ix: Index, c: int, spacing: nat, add: bool, supplied: bool): Result<Index>
    requires 0 < spacing && c in ix.arrays
  {
    if flipped then CountAndFlip(ix, c, spacing, add, supplied) else Ok(ix)
  }

  /** Both ticks are written back, then the flipped ones are counted, the lower one first. */
  ghost function StoreBoth(ix: Index, lower: int, upper: int, spacing: nat, a: TickState, b: TickState, flippedLower: bool,
                           flippedUpper: bool, add: bool, supplied: bool): Result<Index>
    requires 0 < spacing && WellFormed(ix, spacing) && Aligned(lower, spacing) && Aligned(upper, spacing)
    requires ArrayOf(lower, spacing) in ix.arrays && ArrayOf(upper, spacing) in ix.arrays
  {
    SlotAfterWrite(ix, lower, spacing, a, lower);
    var written := WithSlot(WithSlot(ix, lower, spacing, a), upper, spacing, b);
    var first :- FlipIf(flippedLower, written, ArrayOf(lower, spacing), spacing, add, supplied);
    if ArrayOf(upper, spacing) in first.arrays then FlipIf(flippedUpper, first, ArrayOf(upper, spacing), spacing, add, supplied)
    else Err(InvalidTickArray)
  }

  ghost predicate Stored(ix: Index, lower: int, upper: int, spacing: nat, a: TickState, b: TickState, flippedLower: bool,
                         flippedUpper: bool, add: bool, supplied: bool, ix': Index)
    requires 0 < spacing && WellFormed(ix, spacing) && Aligned(lower, spacing) && Aligned(upper, spacing)
    requires ArrayOf(lower, spacing) in ix.arrays && ArrayOf(upper, spacing) in ix.arrays
  {
    StoreBoth(ix, lower, upper, spacing, a, b, flippedLower, flippedUpper, add, supplied) == Ok(ix')
  }

  /** A tick is reported as flipped exactly when it gained (on a mint) or lost (on a burn) its first or
      last reference. */
  predicate FlipsRight(before: TickState, after: TickState, flipped: bool, add: bool) {
    if add then flipped == (!before.IsInitialized() && after.IsInitialized()) && (before.IsInitialized() ==> after.IsInitialized())
    else flipped == (before.IsInitialized() && !after.IsInitialized()) && (after.IsInitialized() ==> before.IsInitialized())
  }

  lemma FlipIfKeepsBits(flipped: bool, ix: Index, c: int, spacing: nat, add: bool, supplied: bool)
    requires 0 < spacing && BitsFollowCounts(ix, spacing) && c in ix.arrays && FlipIf(flipped, ix, c, spacing, add, supplied).Ok?
    ensures var ix' := FlipIf(flipped, ix, c, spacing, add, supplied).value;
            && BitsFollowCounts(ix', spacing) && (flipped && !add ==> ix.arrays[c].count > 0)
            && ix'.arrays.Keys == ix.arrays.Keys
            && (forall d :: d in ix.arrays ==> ix'.arrays[d] == ix.arrays[d].(count := ix'.arrays[d].count))
            && forall d :: d in ix.arrays ==>
                 ix'.arrays[d].count == ix.arrays[d].count + (if flipped && d == c then (if add then 1 else -1) else 0)
  {
    hide BitsFollowCounts, CountAndFlip;
    if flipped { CountAndFlipKeepsBits(ix, c, spacing, add, supplied); }
  }

  /** Bits, counts and ticks still agree after a mint or a burn, also with both ends in one array. */
  lemma StoredKeepsCoherent(ix: Index, lower: int, upper: int, spacing: nat, a: TickState, b: TickState, flippedLower: bool,
                            flippedUpper: bool, add: bool, supplied: bool, ix': Index)
    requires 0 < spacing && Coherent(ix, spacing) && Aligned(lower, spacing) && Aligned(upper, spacing) && lower != upper
    requires ArrayOf(lower, spacing) in ix.arrays && ArrayOf(upper, spacing) in ix.arrays
    requires FlipsRight(SlotAt(ix, lower, spacing), a, flippedLower, add) && FlipsRight(SlotAt(ix, upper, spacing), b, flippedUpper, add)
    requires Stored(ix, lower, upper, spacing, a, b, flippedLower, flippedUpper, add, supplied, ix')
    ensures Coherent(ix', spacing)
  {
    hide ArrayOf, SlotNumber, TickCount, Aligned, WithSlot, FlipIf, WellFormed, IsSet, ValidBitmaps, Initialized, SlotAt;
    CountsAfterWrite(ix, lower, spacing, a);
    var ix1 := WithSlot(ix, lower, spacing, a);
    SlotAfterWrite(ix, lower, spacing, a, upper);
    CountsAfterWrite(ix1, upper, spacing, b);
    var ix2 := WithSlot(ix1, upper, spacing, b);
    FlipIfKeepsBits(flippedLower, ix2, ArrayOf(lower, spacing), spacing, add, supplied);
    var ix3 := FlipIf(flippedLower, ix2, ArrayOf(lower, spacing), spacing, add, supplied).value;
    FlipIfKeepsBits(flippedUpper, ix3, ArrayOf(upper, spacing), spacing, add, supplied);
  }

  /** Storing fails for no other reason than an array that cannot be counted. */
  lemma StoreSucceeds(ix: Index, lower: int, upper: int, spacing: nat, a: TickState, b: TickState, flippedLower: bool,
                      flippedUpper: bool, add: bool, supplied: bool)
    requires 0 < spacing && Coherent(ix, spacing) && Aligned(lower, spacing) && Aligned(upper, spacing) && lower != upper
    requires ArrayOf(lower, spacing) in ix.arrays && ArrayOf(upper, spacing) in ix.arrays
    requires FlipsRight(SlotAt(ix, lower, spacing), a, flippedLower, add) && FlipsRight(SlotAt(ix, upper, spacing), b, flippedUpper, add)
    requires Countable(ArrayOf(lower, spacing), spacing, add, supplied) && Countable(ArrayOf(upper, spacing), spacing, add, supplied)
    ensures StoreBoth(ix, lower, upper, spacing, a, b, flippedLower, flippedUpper, add, supplied).Ok?
  {
    hide ArrayOf, SlotNumber, TickCount, Aligned, WithSlot, CountAndFlip, WellFormed, IsSet, ValidBitmaps, Initialized, SlotAt, Countable;
    CountsAfterWrite(ix, lower, spacing, a);
    var ix1 := WithSlot(ix, lower, spacing, a);
    SlotAfterWrite(ix, lower, spacing, a, upper);
    CountsAfterWrite(ix1, upper, spacing, b);
    var ix2 := WithSlot(ix1, upper, spacing, b);
    if flippedLower { CountAndFlipSucceeds(ix2, ArrayOf(lower, spacing), spacing, add, supplied); }
    FlipIfKeepsBits(flippedLower, ix2, ArrayOf(lower, spacing), spacing, add, supplied);
    var ix3 := FlipIf(flippedLower, ix2, ArrayOf(lower, spacing), spacing, add, supplied).value;
    if flippedUpper { CountAndFlipSucceeds(ix3, ArrayOf(upper, spacing), spacing, add, supplied); }
  }

  /** And the arrays hold the new ticks. */
  lemma StoredRepresents(ix: Index, lower: int, upper: int, spacing: nat, a: TickState, b: TickState, flippedLower: bool,
                         flippedUpper: bool, add: bool, supplied: bool, ix': Index, ticks: map<int, TickState>)
    requires 0 < spacing && BitsFollowCounts(ix, spacing) && Aligned(lower, spacing) && Aligned(upper, spacing)
    requires ArrayOf(lower, spacing) in ix.arrays && ArrayOf(upper, spacing) in ix.arrays
    requires Represents(ix, spacing, ticks)
    requires Stored(ix, lower, upper, spacing, a, b, flippedLower, flippedUpper, add, supplied, ix')
    ensures WellFormed(ix', spacing) && Represents(ix', spacing, ticks[lower := a][upper := b])
    ensures ix'.arrays.Keys == ix.arrays.Keys
  {
    hide ArrayOf, SlotNumber, TickCount, Aligned, WithSlot, FlipIf, IsSet, ValidBitmaps, Represents, WellFormed;
    CountsAfterWrite(ix, lower, spacing, a);
    WithSlotRepresents(ix, lower, spacing, a, ticks);
    var ix1 := WithSlot(ix, lower, spacing, a);
    CountsAfterWrite(ix1, upper, spacing, b);
    WithSlotRepresents(ix1, upper, spacing, b, ticks[lower := a]);
    var ix2 := WithSlot(ix1, upper, spacing, b);
    FlipIfKeepsBits(flippedLower, ix2, ArrayOf(lower, spacing), spacing, add, supplied);
    var ix3 := FlipIf(flippedLower, ix2, ArrayOf(lower, spacing), spacing, add, supplied).value;
    FlipIfKeepsBits(flippedUpper, ix3, ArrayOf(upper, spacing), spacing, add, supplied);
    SameSlotsRepresent(ix2, ix', spacing, ticks[lower := a][upper := b]);
  }

  /** Counts play no part in what the slots hold. */
  lemma SameSlotsRepresent(ix: Index, ix': Index, spacing: nat, ticks: map<int, TickState>)
    requires 0 < spacing && WellFormed(ix, spacing) && WellFormed(ix', spacing) && Represents(ix, spacing, ticks)
    requires ix'.arrays.Keys == ix.arrays.Keys && forall c :: c in ix.arrays ==> ix'.arrays[c].ticks == ix.arrays[c].ticks
    ensures Represents(ix', spacing, ticks)
  {
    forall t ensures TickOf(ticks, t) == if Aligned(t, spacing) then SlotAt(ix', t, spacing) else DEFAULT_TICK {
      hide ArrayOf, SlotNumber, TickCount, Aligned;
      if Aligned(t, spacing) {
        SlotOfTick(t, spacing);
        assert SlotAt(ix', t, spacing) == SlotAt(ix, t, spacing);
      }
    }
  }
}
