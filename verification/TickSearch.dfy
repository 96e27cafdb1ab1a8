/** Finding the next initialized tick of a swap in the tick arrays handed to it (programs/amm/src/
    states/tick_array.rs and the search part of instructions/swap.rs), against the nearest initialized
    tick of the ledger. */
module TickSearch {
  import opened Wrappers
  import opened FullMath
  import opened PoolTypes
  import opened Bits
  import opened ArrayIndex
  import opened NearestArray
  import opened TickIndex
  import opened SwapPath

  // -----------------------------------------------------------------------------------------
  // Within one array

  /** `first_initialized_tick`, from the end a swap in this direction enters the array by */
  method FirstInitializedTick(a: TickArray, zeroForOne: bool) returns (r: Result<nat>)
    requires |a.ticks| == TICK_ARRAY_SIZE
    ensures r.Ok? ==> r.value < TICK_ARRAY_SIZE && a.ticks[r.value].IsInitialized()
    ensures r.Ok? ==> forall k :: 0 <= k < TICK_ARRAY_SIZE && a.ticks[k].IsInitialized() ==>
              if zeroForOne then k <= r.value else r.value <= k
    ensures r.Err? ==> forall k :: 0 <= k < TICK_ARRAY_SIZE ==> !a.ticks[k].IsInitialized()
  {
    if zeroForOne {
      var i := TICK_ARRAY_SIZE - 1;
      while i >= 0
        invariant -1 <= i < TICK_ARRAY_SIZE
        invariant forall k :: i < k < TICK_ARRAY_SIZE ==> !a.ticks[k].IsInitialized()
      {
        if a.ticks[i].IsInitialized() {
          return Ok(i);
        }
        i := i - 1;
      }
    } else {
      var i := 0;
      while i < TICK_ARRAY_SIZE
        invariant 0 <= i <= TICK_ARRAY_SIZE
        invariant forall k :: 0 <= k < i ==> !a.ticks[k].IsInitialized()
      {
        if a.ticks[i].IsInitialized() {
          return Ok(i);
        }
        i := i + 1;
      }
    }
    return Err(InvalidTickArray);
  }

  /** `next_initialized_tick`: none when the tick lies in another array. */
  method NextInitializedTick(a: TickArray, tick: int, spacing: nat, zeroForOne: bool) returns (r: Option<nat>)
    requires 0 < spacing && |a.ticks| == TICK_ARRAY_SIZE
    ensures a.start != GetArrayStartIndex(tick, spacing) ==> r == None
    ensures r.Some? ==> r.value < TICK_ARRAY_SIZE && a.ticks[r.value].IsInitialized()
    ensures r.Some? ==> if zeroForOne then r.value <= (tick - a.start) / spacing else (tick - a.start) / spacing < r.value
    ensures a.start == GetArrayStartIndex(tick, spacing) ==>
              forall k :: 0 <= k < TICK_ARRAY_SIZE && a.ticks[k].IsInitialized() ==>
                if zeroForOne then k <= (tick - a.start) / spacing ==> r.Some? && k <= r.value
                else (tick - a.start) / spacing < k ==> r.Some? && r.value <= k
  {
    if GetArrayStartIndex(tick, spacing) != a.start {
      return None;
    }
    StartIndexIsFloor(tick, spacing);
    OffsetInArray(tick - a.start, spacing);
    var offset := TruncDiv(tick - a.start, spacing);
    if zeroForOne {
      while offset >= 0
        invariant -1 <= offset <= (tick - a.start) / spacing
        invariant forall k :: offset < k <= (tick - a.start) / spacing ==> !a.ticks[k].IsInitialized()
      {
        if a.ticks[offset].IsInitialized() {
          return Some(offset);
        }
        offset := offset - 1;
      }
    } else {
      offset := offset + 1;
      while offset < TICK_ARRAY_SIZE
        invariant (tick - a.start) / spacing < offset <= TICK_ARRAY_SIZE
        invariant forall k :: (tick - a.start) / spacing < k < offset ==> !a.ticks[k].IsInitialized()
      {
        if a.ticks[offset].IsInitialized() {
          return Some(offset);
        }
        offset := offset + 1;
      }
    }
    return None;
  }

  lemma OffsetInArray(x: int, spacing: nat)
    requires 0 < spacing && 0 <= x < TickCount(spacing)
    ensures 0 <= x / spacing < TICK_ARRAY_SIZE && TruncDiv(x, spacing) == x / spacing
  {
    var q := x / spacing;
    assert x == q * spacing + x % spacing;
    if q >= 60 { MulLe(60, q, spacing); }
    if q < 0 { MulLe(q, -1, spacing); }
  }

  // -----------------------------------------------------------------------------------------
  // The first array of a swap

  /** `get_first_initialized_tick_array` */
  function FirstInitializedArray(ix: Index, tick: int, spacing: nat, zeroForOne: bool, supplied: bool): Result<(bool, int)>
    requires 0 < spacing
  {
    var start := GetArrayStartIndex(tick, spacing);
    var current :- if Overflows(tick, spacing) then
                     if supplied then CheckInExtension(ix.extension, start, spacing) else Err(MissingTickArrayBitmapExtensionAccount)
                   else CheckInPool(ix.bitmap, tick, spacing);
    if current then Ok((true, start))
    else
      var next :- NextInitializedArray(ix.bitmap, if supplied then Some(ix.extension) else None, start, spacing, zeroForOne);
      match next
      case None => Err(InsufficientLiquidityForDirection)
      case Some(nextStart) => Ok((false, nextStart))
  }

  /** `check_tick_array_is_initialized` */
  function CheckInExtension(e: Extension, start: int, spacing: nat): Result<bool>
    requires 0 < spacing
  {
    var (_, bitmap) :- GetBitmap(e, start, spacing);
    var bit := OffsetInBitmap(start, spacing);
    if bit < 0 then Err(Overflow) else Ok(Bit(bitmap, bit))
  }

  /** `check_current_tick_array_is_initialized` */
  function CheckInPool(bitmap: nat, tick: int, spacing: nat): Result<bool>
    requires 0 < spacing
  {
    if tick < MIN_TICK || tick > MAX_TICK then Err(InvalidTickIndex) else Ok(Bit(bitmap, Abs(BitPosition(tick, spacing))))
  }

  /** The bit position of any tick is that of its array. */
  lemma BitPositionOfTick(tick: int, spacing: nat)
    requires 0 < spacing
    ensures BitPosition(tick, spacing) == ArrayOf(tick, spacing) + 512
  {
    var n := TickCount(spacing);
    StartIndexIsFloor(tick, spacing);
    var start := TruncDiv(tick, n);
    var floored := if tick < 0 && TruncMod(tick, n) != 0 then start - 1 else start;
    CompareArrays(floored, ArrayOf(tick, spacing), n);
  }

  /** Whether the current tick's own array is marked. */
  lemma CurrentArrayIs(ix: Index, tick: int, spacing: nat)
    requires 0 < spacing && MIN_TICK <= tick <= MAX_TICK && ValidBitmaps(ix)
    ensures var c, start := ArrayOf(tick, spacing), GetArrayStartIndex(tick, spacing);
            && FirstArray(spacing) <= c <= LastArray(spacing)
            && (Overflows(tick, spacing) ==>
                  CheckInExtension(ix.extension, start, spacing) == if Refused(c, spacing) then Err(RequireViolated) else Ok(Marked(ix, c)))
            && (Refused(c, spacing) ==> Overflows(tick, spacing))
            && (!Overflows(tick, spacing) ==> CheckInPool(ix.bitmap, tick, spacing) == Ok(Marked(ix, c)))
  {
    hide Bit, Shifted;
    var n, c := TickCount(spacing), ArrayOf(tick, spacing);
    StartIndexIsFloor(tick, spacing);
    StartIndexIsFloor(MIN_TICK, spacing);
    StartIndexIsFloor(MAX_TICK, spacing);
    CompareArrays(FirstArray(spacing), c + 1, n);
    CompareArrays(c, LastArray(spacing) + 1, n);
    Neighbour(c, n);
    Neighbour(LastArray(spacing), n);
    StartOfArray(c, spacing);
    StartIndexIsFloor(c * n, spacing);
    RouteOfArray(c, spacing);
    BitPositionOfTick(tick, spacing);
    if Overflows(tick, spacing) && !Refused(c, spacing) {
      ValidStart(c, spacing);
      OffsetIndexOfArray(c, spacing);
      ExtensionCovers(c, spacing);
      OffsetOfArray(c, spacing);
      AbsOfArray(c, n);
    } else if Overflows(tick, spacing) {
      ValidStart(c, spacing);
      OffsetIndexOfArray(c, spacing);
    }
  }

  /** Without the extension a search only succeeds where it is not needed. */
  lemma UnsuppliedSearch(pool: nat, e: Extension, last: int, spacing: nat, zeroForOne: bool)
    requires 0 < spacing && SearchFrom(pool, None, last, spacing, zeroForOne).Ok?
    ensures SearchFrom(pool, Some(e), last, spacing, zeroForOne) == SearchFrom(pool, None, last, spacing, zeroForOne)
  {
    hide NextInPool, NextInExtension;
  }

  /** Whether or not the extension was supplied, a search that returns gives the nearest marked array. */
  lemma SearchResult(ix: Index, c: int, spacing: nat, zeroForOne: bool, supplied: bool)
    requires 0 < spacing && BitsFollowCounts(ix, spacing) && FirstArray(spacing) <= c <= LastArray(spacing)
    ensures var r := NextInitializedArray(ix.bitmap, if supplied then Some(ix.extension) else None, c * TickCount(spacing), spacing, zeroForOne);
            r.Ok? ==> IsAnswer(ix.bitmap, ix.extension, spacing, c, r.value, zeroForOne)
  {
    hide SearchFrom, IsAnswer, IsSet, Shifted;
    var n := TickCount(spacing);
    StartIndexIsFloor(c * n, spacing);
    StartOfArray(c, spacing);
    assert WithinRange(ix.bitmap, ix.extension, spacing) by {
      forall d | IsSet(ix.bitmap, ix.extension, d) ensures FirstArray(spacing) <= d <= LastArray(spacing) { assert Marked(ix, d); }
    }
    SearchIsNearest(ix.bitmap, ix.extension, c, spacing, zeroForOne);
    if !supplied && SearchFrom(ix.bitmap, None, c * n, spacing, zeroForOne).Ok? {
      UnsuppliedSearch(ix.bitmap, ix.extension, c * n, spacing, zeroForOne);
    }
  }

  /** Nearest in terms of the index. */
  ghost predicate NearestMarked(ix: Index, from: int, c: int, zeroForOne: bool) {
    Nearest(ix.bitmap, ix.extension, from, c, zeroForOne)
  }

  lemma FirstInitializedArrayIs(ix: Index, tick: int, spacing: nat, zeroForOne: bool, supplied: bool) returns (c: int)
    requires 0 < spacing && BitsFollowCounts(ix, spacing) && MIN_TICK <= tick <= MAX_TICK
    requires FirstInitializedArray(ix, tick, spacing, zeroForOne, supplied).Ok?
    ensures var (same, start) := FirstInitializedArray(ix, tick, spacing, zeroForOne, supplied).value;
            && start == c * TickCount(spacing) && Marked(ix, c)
            && (same ==> c == ArrayOf(tick, spacing))
            && (!same ==> !Marked(ix, ArrayOf(tick, spacing)) && NearestMarked(ix, ArrayOf(tick, spacing), c, zeroForOne))
  {
    hide Overflows, CheckInExtension, CheckInPool, NextInitializedArray, IsSet, Clear, Shifted;
    CurrentArrayIs(ix, tick, spacing);
    StartIndexIsFloor(tick, spacing);
    var (same, start) := FirstInitializedArray(ix, tick, spacing, zeroForOne, supplied).value;
    if same {
      c := ArrayOf(tick, spacing);
    } else {
      SearchResult(ix, ArrayOf(tick, spacing), spacing, zeroForOne, supplied);
      c :| start == c * TickCount(spacing) && Nearest(ix.bitmap, ix.extension, ArrayOf(tick, spacing), c, zeroForOne);
    }
  }

  /** From a tick in a refused array no swap finds its first array. */
  lemma RefusedFindsNoArray(ix: Index, tick: int, spacing: nat, zeroForOne: bool, supplied: bool)
    requires 0 < spacing && BitsFollowCounts(ix, spacing) && MIN_TICK <= tick <= MAX_TICK && Refused(ArrayOf(tick, spacing), spacing)
    ensures FirstInitializedArray(ix, tick, spacing, zeroForOne, supplied).Err?
  {
    hide Overflows, CheckInExtension, CheckInPool, NextInitializedArray, IsSet, Shifted, Refused;
    CurrentArrayIs(ix, tick, spacing);
  }

  /** No array is marked beyond `from`. */
  ghost predicate NoneMarkedBeyond(ix: Index, from: int, zeroForOne: bool) {
    forall c :: Marked(ix, c) ==> Beyond(c, from, zeroForOne)
  }

  /** With the extension supplied the first array is missing exactly when the current tick lies in a
      refused array, or neither its array nor any further on holds a tick. */
  lemma FirstInitializedArrayFailsOnlyBy(ix: Index, tick: int, spacing: nat, zeroForOne: bool)
    requires 0 < spacing && BitsFollowCounts(ix, spacing) && MIN_TICK <= tick <= MAX_TICK
    ensures var c := ArrayOf(tick, spacing);
            FirstInitializedArray(ix, tick, spacing, zeroForOne, true).Err? <==>
            Refused(c, spacing) || (!Marked(ix, c) && NoneMarkedBeyond(ix, c, zeroForOne))
  {
    hide Overflows, CheckInExtension, CheckInPool, NextInitializedArray, IsSet, Shifted, Refused;
    var c := ArrayOf(tick, spacing);
    CurrentArrayIs(ix, tick, spacing);
    StartIndexIsFloor(tick, spacing);
    SuppliedSearchSucceeds(ix, c, spacing, zeroForOne);
    SearchResult(ix, c, spacing, zeroForOne, true);
    var next := NextInitializedArray(ix.bitmap, Some(ix.extension), c * TickCount(spacing), spacing, zeroForOne).value;
    if next.Some? {
      var d :| next.value == d * TickCount(spacing) && Nearest(ix.bitmap, ix.extension, c, d, zeroForOne);
      assert Marked(ix, d);
    }
  }

  lemma SuppliedSearchSucceeds(ix: Index, c: int, spacing: nat, zeroForOne: bool)
    requires 0 < spacing && BitsFollowCounts(ix, spacing) && FirstArray(spacing) <= c <= LastArray(spacing)
    ensures NextInitializedArray(ix.bitmap, Some(ix.extension), c * TickCount(spacing), spacing, zeroForOne).Ok?
  {
    hide SearchFrom, IsAnswer, IsSet, Shifted;
    StartIndexIsFloor(c * TickCount(spacing), spacing);
    StartOfArray(c, spacing);
    assert WithinRange(ix.bitmap, ix.extension, spacing) by {
      forall d | IsSet(ix.bitmap, ix.extension, d) ensures FirstArray(spacing) <= d <= LastArray(spacing) { assert Marked(ix, d); }
    }
    SearchIsNearest(ix.bitmap, ix.extension, c, spacing, zeroForOne);
  }

  // -----------------------------------------------------------------------------------------
  // The next tick

  /** The index holds the ticks, and initialized slots know their tick. */
  ghost predicate Holds(ix: Index, spacing: nat, ticks: map<int, TickState>) {
    && 0 < spacing && Coherent(ix, spacing) && Represents(ix, spacing, ticks)
    && forall t :: TickOf(ticks, t).IsInitialized() ==> MIN_TICK <= t <= MAX_TICK && TickOf(ticks, t).tick == t
  }

  predicate Beyond(c: int, d: int, zeroForOne: bool) { if zeroForOne then d <= c else c <= d }

  // The accounts a swap is given

  /** They exist, and come in the order the swap meets them. */
  ghost predicate InSwapOrder(ix: Index, accounts: seq<int>, zeroForOne: bool) {
    && (forall c :: c in accounts ==> c in ix.arrays)
    && (forall i, j :: 0 <= i < j < |accounts| ==> if zeroForOne then accounts[j] < accounts[i] else accounts[i] < accounts[j])
  }

  /** Every marked array beyond `from` is among them. */
  ghost predicate Covers(ix: Index, accounts: seq<int>, from: int, zeroForOne: bool) {
    forall c :: Marked(ix, c) && c != from && Beyond(from, c, zeroForOne) ==> c in accounts
  }

  /** Once the accounts up to the `k`th are taken, the rest still covers what lies beyond it. */
  lemma RestCovers(ix: Index, accounts: seq<int>, from: int, k: nat, zeroForOne: bool)
    requires InSwapOrder(ix, accounts, zeroForOne) && Covers(ix, accounts, from, zeroForOne) && k < |accounts|
    requires Beyond(from, accounts[k], zeroForOne)
    ensures InSwapOrder(ix, accounts[k + 1..], zeroForOne) && Covers(ix, accounts[k + 1..], accounts[k], zeroForOne)
  {
    hide Marked;
    forall c | Marked(ix, c) && c != accounts[k] && Beyond(accounts[k], c, zeroForOne) ensures c in accounts[k + 1..] {
      var i :| 0 <= i < |accounts| && accounts[i] == c;
      assert i > k;
      assert accounts[k + 1..][i - k - 1] == c;
    }
  }

  /** Every initialized tick ahead lies in array `c` or beyond. */
  ghost predicate NoneBefore(spacing: nat, ticks: map<int, TickState>, tick: int, c: int, zeroForOne: bool)
    requires 0 < spacing
  {
    forall t :: TickOf(ticks, t).IsInitialized() && Ahead(tick, t, zeroForOne) ==> Beyond(c, ArrayOf(t, spacing), zeroForOne)
  }

  /** Where the search stands: in a marked array before which nothing is left. An array the swap has
      `entered` holds the current tick or nothing more ahead of it; any other is all ahead. */
  ghost predicate Searching(ix: Index, spacing: nat, ticks: map<int, TickState>, tick: int, c: int, entered: bool, zeroForOne: bool)
    requires 0 < spacing
  {
    && Marked(ix, c)
    && NoneBefore(spacing, ticks, tick, c, zeroForOne)
    && (if entered then Near(tick, c, spacing, zeroForOne) && (ArrayOf(tick, spacing) == c || NothingAheadIn(spacing, ticks, tick, c, zeroForOne))
        else ArrayOf(tick, spacing) != c && AllAheadIn(spacing, ticks, tick, c, zeroForOne))
  }

  ghost predicate NothingAheadIn(spacing: nat, ticks: map<int, TickState>, tick: int, c: int, zeroForOne: bool)
    requires 0 < spacing
  {
    forall t :: TickOf(ticks, t).IsInitialized() && ArrayOf(t, spacing) == c ==> !Ahead(tick, t, zeroForOne)
  }

  ghost predicate AllAheadIn(spacing: nat, ticks: map<int, TickState>, tick: int, c: int, zeroForOne: bool)
    requires 0 < spacing
  {
    forall t :: TickOf(ticks, t).IsInitialized() && ArrayOf(t, spacing) == c ==> Ahead(tick, t, zeroForOne)
  }

  /** The tick has not left the array by more than the one step that crossing its last tick makes. */
  predicate Near(tick: int, c: int, spacing: nat, zeroForOne: bool) {
    if zeroForOne then c * TickCount(spacing) - 1 <= tick else tick < c * TickCount(spacing) + TickCount(spacing)
  }

  /** An initialized slot is an initialized tick. */
  lemma SlotIsTick(ix: Index, spacing: nat, ticks: map<int, TickState>, c: int, k: nat)
    requires Holds(ix, spacing, ticks) && c in ix.arrays && k < TICK_ARRAY_SIZE && ix.arrays[c].ticks[k].IsInitialized()
    ensures var t := c * TickCount(spacing) + k * spacing;
            && ix.arrays[c].ticks[k] == TickOf(ticks, t) && ix.arrays[c].ticks[k].tick == t
            && ArrayOf(t, spacing) == c && t / spacing == 60 * c + k && MIN_TICK <= t <= MAX_TICK
  {
    hide TickCount, Initialized, IsSet, Shifted;
    TickOfSlot(c, k, spacing);
    SlotTick(c, k, spacing);
    QuotientIs((60 * c + k) * spacing, spacing, 60 * c + k);
  }

  /** An initialized tick sits in a slot of a marked array. */
  lemma TickIsSlot(ix: Index, spacing: nat, ticks: map<int, TickState>, t: int)
    requires Holds(ix, spacing, ticks) && TickOf(ticks, t).IsInitialized()
    ensures var c, k := ArrayOf(t, spacing), SlotNumber(t, spacing);
            && c in ix.arrays && Marked(ix, c) && 0 <= k < TICK_ARRAY_SIZE && ix.arrays[c].ticks[k] == TickOf(ticks, t)
            && t == c * TickCount(spacing) + k * spacing
  {
    hide IsSet, Shifted;
    SlotOfTick(t, spacing);
    var a := ix.arrays[ArrayOf(t, spacing)];
    SomeInitialized(a.ticks, |a.ticks|);
  }

  /** A marked array has an initialized tick. */
  lemma MarkedHasTick(ix: Index, spacing: nat, c: int)
    requires 0 < spacing && Coherent(ix, spacing) && Marked(ix, c)
    ensures c in ix.arrays && |ix.arrays[c].ticks| == TICK_ARRAY_SIZE
    ensures exists k :: 0 <= k < TICK_ARRAY_SIZE && ix.arrays[c].ticks[k].IsInitialized()
  {
    hide IsSet, Shifted;
    SomeInitialized(ix.arrays[c].ticks, |ix.arrays[c].ticks|);
  }

  /** A tick ahead with no other before it is the next one. */
  lemma FoundIsNext(ticks: map<int, TickState>, tick: int, t: int, zeroForOne: bool)
    requires MIN_TICK <= t <= MAX_TICK && TickOf(ticks, t).IsInitialized() && Ahead(tick, t, zeroForOne)
    requires forall u :: TickOf(ticks, u).IsInitialized() && Ahead(tick, u, zeroForOne) ==> Beyond(t, u, zeroForOne)
    ensures NextTick(ticks, tick, zeroForOne) == Some(t)
  {
    hide NextTick;
    NextTickIs(ticks, tick, zeroForOne);
  }

  lemma SlotOrder(c: int, k: int, d: int, j: int, spacing: nat)
    requires 0 < spacing && 0 <= k < TICK_ARRAY_SIZE && 0 <= j < TICK_ARRAY_SIZE
    ensures c < d || (c == d && k <= j) <==> c * TickCount(spacing) + k * spacing <= d * TickCount(spacing) + j * spacing
  {
    SlotTick(c, k, spacing);
    SlotTick(d, j, spacing);
    CompareArrays(60 * c + k, 60 * d + j, spacing);
  }

  /** The first tick of a marked array before which nothing is left, and all of which lies ahead. */
  lemma FirstIsNext(ix: Index, spacing: nat, ticks: map<int, TickState>, tick: int, c: int, k: nat, zeroForOne: bool)
    requires Holds(ix, spacing, ticks) && c in ix.arrays && k < TICK_ARRAY_SIZE && ix.arrays[c].ticks[k].IsInitialized()
    requires forall j :: 0 <= j < TICK_ARRAY_SIZE && ix.arrays[c].ticks[j].IsInitialized() ==> if zeroForOne then j <= k else k <= j
    requires NoneBefore(spacing, ticks, tick, c, zeroForOne) && AllAheadIn(spacing, ticks, tick, c, zeroForOne)
    ensures NextTick(ticks, tick, zeroForOne) == Some(ix.arrays[c].ticks[k].tick)
  {
    hide NextTick, ArrayOf, TickCount, Coherent, Represents, SlotNumber;
    SlotIsTick(ix, spacing, ticks, c, k);
    var t := c * TickCount(spacing) + k * spacing;
    forall u | TickOf(ticks, u).IsInitialized() && Ahead(tick, u, zeroForOne) ensures Beyond(t, u, zeroForOne) {
      TickIsSlot(ix, spacing, ticks, u);
      SlotOrder(c, k, ArrayOf(u, spacing), SlotNumber(u, spacing), spacing);
      SlotOrder(ArrayOf(u, spacing), SlotNumber(u, spacing), c, k, spacing);
    }
    FoundIsNext(ticks, tick, t, zeroForOne);
  }

  /** The next tick within the array that holds the current tick. */
  lemma WithinIsNext(ix: Index, spacing: nat, ticks: map<int, TickState>, tick: int, c: int, k: nat, zeroForOne: bool)
    requires Holds(ix, spacing, ticks) && c in ix.arrays && c == ArrayOf(tick, spacing)
    requires k < TICK_ARRAY_SIZE && ix.arrays[c].ticks[k].IsInitialized()
    requires var off := (tick - c * TickCount(spacing)) / spacing;
             && (if zeroForOne then k <= off else off < k)
             && forall j :: 0 <= j < TICK_ARRAY_SIZE && ix.arrays[c].ticks[j].IsInitialized() ==>
                  if zeroForOne then j <= off ==> j <= k else off < j ==> k <= j
    requires NoneBefore(spacing, ticks, tick, c, zeroForOne)
    ensures NextTick(ticks, tick, zeroForOne) == Some(ix.arrays[c].ticks[k].tick)
  {
    hide NextTick, ArrayOf, TickCount, Coherent, Represents, SlotNumber;
    SlotIsTick(ix, spacing, ticks, c, k);
    var t := c * TickCount(spacing) + k * spacing;
    AheadByOffset(tick, c, k, spacing, zeroForOne);
    forall u | TickOf(ticks, u).IsInitialized() && Ahead(tick, u, zeroForOne) ensures Beyond(t, u, zeroForOne) {
      TickIsSlot(ix, spacing, ticks, u);
      var d, j := ArrayOf(u, spacing), SlotNumber(u, spacing);
      SlotOrder(c, k, d, j, spacing);
      SlotOrder(d, j, c, k, spacing);
      if d == c { AheadByOffset(tick, c, j, spacing, zeroForOne); }
    }
    FoundIsNext(ticks, tick, t, zeroForOne);
  }

  /** Ahead of a tick, in slots of its array. */
  lemma AheadByOffset(tick: int, c: int, k: int, spacing: nat, zeroForOne: bool)
    requires 0 < spacing
    ensures var off := (tick - c * TickCount(spacing)) / spacing;
            Ahead(tick, c * TickCount(spacing) + k * spacing, zeroForOne) <==> if zeroForOne then k <= off else off < k
  {
    var x := tick - c * TickCount(spacing);
    var q := x / spacing;
    assert x == q * spacing + x % spacing;
    if k <= q { MulLe(k, q, spacing); } else { MulLe(q + 1, k, spacing); }
  }

  /** Moving on to the nearest marked array leaves nothing behind. */
  lemma NextArrayHoldsRest(ix: Index, spacing: nat, ticks: map<int, TickState>, tick: int, c: int, c': int, zeroForOne: bool)
    requires Holds(ix, spacing, ticks) && NoneBefore(spacing, ticks, tick, c, zeroForOne) && NearestMarked(ix, c, c', zeroForOne)
    requires NothingAheadIn(spacing, ticks, tick, c, zeroForOne) && Near(tick, c, spacing, zeroForOne)
    ensures NoneBefore(spacing, ticks, tick, c', zeroForOne) && AllAheadIn(spacing, ticks, tick, c', zeroForOne)
  {
    hide Coherent, Represents, IsSet, ArrayOf, SlotNumber, TickCount;
    forall t | TickOf(ticks, t).IsInitialized() && Ahead(tick, t, zeroForOne) ensures Beyond(c', ArrayOf(t, spacing), zeroForOne) {
      TickIsSlot(ix, spacing, ticks, t);
      assert ArrayOf(t, spacing) != c && Marked(ix, ArrayOf(t, spacing));
    }
    forall t | TickOf(ticks, t).IsInitialized() && ArrayOf(t, spacing) == c' ensures Ahead(tick, t, zeroForOne) {
      StartIndexIsFloor(t, spacing);
      var n := TickCount(spacing);
      if zeroForOne { Neighbour(c', n); MulLe(c' + 1, c, n); } else { Neighbour(c, n); MulLe(c + 1, c', n); }
    }
  }

  /** Once the tick found is crossed, the search stands in its array. */
  lemma CrossedKeepsSearching(ix: Index, spacing: nat, ticks: map<int, TickState>, tick: int, next: int, zeroForOne: bool)
    requires Holds(ix, spacing, ticks) && NextTick(ticks, tick, zeroForOne) == Some(next) && Marked(ix, ArrayOf(next, spacing))
    ensures Searching(ix, spacing, ticks, if zeroForOne then next - 1 else next, ArrayOf(next, spacing), true, zeroForOne)
  {
    hide Coherent, Represents, IsSet, SlotNumber, NextTick;
    var tick' := if zeroForOne then next - 1 else next;
    var c, n := ArrayOf(next, spacing), TickCount(spacing);
    StartIndexIsFloor(next, spacing);
    StartIndexIsFloor(tick', spacing);
    Neighbour(c, n);
    forall t | TickOf(ticks, t).IsInitialized() && Ahead(tick', t, zeroForOne) ensures Beyond(c, ArrayOf(t, spacing), zeroForOne) {
      StartIndexIsFloor(t, spacing);
      CompareArrays(c + 1, ArrayOf(t, spacing), n);
      CompareArrays(ArrayOf(t, spacing) + 1, c, n);
      Neighbour(ArrayOf(t, spacing), n);
    }
    if ArrayOf(tick', spacing) != c {
      SamePlace(tick', c, spacing);
      forall t | TickOf(ticks, t).IsInitialized() && ArrayOf(t, spacing) == c ensures !Ahead(tick', t, zeroForOne) {
        StartIndexIsFloor(t, spacing);
      }
    }
  }

  lemma SamePlace(tick: int, c: int, spacing: nat)
    requires 0 < spacing
    ensures ArrayOf(tick, spacing) == c <==> c * TickCount(spacing) <= tick < c * TickCount(spacing) + TickCount(spacing)
  {
    StartIndexIsFloor(tick, spacing);
    if c * TickCount(spacing) <= tick < c * TickCount(spacing) + TickCount(spacing) { QuotientIs(tick, TickCount(spacing), c); }
  }

  /** A tick ahead lies in the same array or beyond. */
  lemma AheadIsBeyond(tick: int, t: int, spacing: nat, zeroForOne: bool)
    requires 0 < spacing && Ahead(tick, t, zeroForOne)
    ensures Beyond(ArrayOf(tick, spacing), ArrayOf(t, spacing), zeroForOne)
  {
    hide ArrayOf, TickCount;
    PositiveCount(spacing);
    StartIndexIsFloor(tick, spacing);
    StartIndexIsFloor(t, spacing);
    var d, e, n := ArrayOf(tick, spacing), ArrayOf(t, spacing), TickCount(spacing);
    Neighbour(d, n);
    Neighbour(e, n);
    if d < e { MulLe(d + 1, e, n); }
    if e < d { MulLe(e + 1, d, n); }
  }

  /** At the start of a swap the search stands in the first array. */
  lemma StartsSearching(ix: Index, spacing: nat, ticks: map<int, TickState>, tick: int, c: int, same: bool, zeroForOne: bool)
    requires Holds(ix, spacing, ticks) && Marked(ix, c)
    requires if same then c == ArrayOf(tick, spacing)
             else !Marked(ix, ArrayOf(tick, spacing)) && NearestMarked(ix, ArrayOf(tick, spacing), c, zeroForOne)
    ensures Searching(ix, spacing, ticks, tick, c, same, zeroForOne)
  {
    hide Coherent, Represents, IsSet, SlotNumber, TickCount;
    var d := ArrayOf(tick, spacing);
    StartIndexIsFloor(tick, spacing);
    forall t | TickOf(ticks, t).IsInitialized()
      ensures Ahead(tick, t, zeroForOne) ==> Beyond(d, ArrayOf(t, spacing), zeroForOne)
      ensures ArrayOf(t, spacing) == d ==> Marked(ix, d)
    {
      TickIsSlot(ix, spacing, ticks, t);
      if Ahead(tick, t, zeroForOne) { AheadIsBeyond(tick, t, spacing, zeroForOne); }
    }
    if !same { NextArrayHoldsRest(ix, spacing, ticks, tick, d, c, zeroForOne); }
  }

  /** The array whose start the program names is the first one. */
  lemma StartsInFirstArray(ix: Index, spacing: nat, ticks: map<int, TickState>, tick: int, zeroForOne: bool, supplied: bool, c: int)
    requires Holds(ix, spacing, ticks) && MIN_TICK <= tick <= MAX_TICK && c in ix.arrays
    requires FirstInitializedArray(ix, tick, spacing, zeroForOne, supplied).Ok?
    requires ix.arrays[c].start == FirstInitializedArray(ix, tick, spacing, zeroForOne, supplied).value.1
    ensures Searching(ix, spacing, ticks, tick, c, FirstInitializedArray(ix, tick, spacing, zeroForOne, supplied).value.0, zeroForOne)
  {
    hide FirstInitializedArray, Searching, IsSet, Represents, Initialized, TickCount;
    var c' := FirstInitializedArrayIs(ix, tick, spacing, zeroForOne, supplied);
    StartsDiffer(ix, spacing, ticks, c, c');
    StartsSearching(ix, spacing, ticks, tick, c, FirstInitializedArray(ix, tick, spacing, zeroForOne, supplied).value.0, zeroForOne);
  }

  lemma HeldInRange(ix: Index, spacing: nat, ticks: map<int, TickState>, t: int)
    requires Holds(ix, spacing, ticks) && TickOf(ticks, t).IsInitialized()
    ensures MIN_TICK <= t <= MAX_TICK
  {}

  // -----------------------------------------------------------------------------------------
  // The search of one turn

  /** The tick found, the array it is in, and the accounts not yet taken. */
  datatype Found = Found(next: TickState, at: int, rest: seq<int>)

  /** Pop the accounts until the array that starts at `start` is at hand; `k` of them are taken. */
  method TakeArray(ix: Index, start: int, c: int, rest: seq<int>) returns (r: Result<(int, seq<int>)>, ghost k: nat)
    requires c in ix.arrays
    ensures r.Ok? ==> r.value.0 in ix.arrays && ix.arrays[r.value.0].start == start
    ensures r.Ok? ==> k <= |rest| && r.value.1 == rest[k..] && r.value.0 == if k == 0 then c else rest[k - 1]
    ensures r.Err? && (forall d :: d in rest ==> d in ix.arrays) ==> forall d :: d in rest ==> ix.arrays[d].start != start
  {
    k := 0;
    var at, left := c, rest;
    while ix.arrays[at].start != start
      invariant at in ix.arrays && k <= |rest| && left == rest[k..] && at == (if k == 0 then c else rest[k - 1])
      invariant forall i :: 0 <= i < k ==> rest[i] in ix.arrays && (i < k - 1 ==> ix.arrays[rest[i]].start != start)
      decreases |left|
    {
      if left == [] {
        return Err(NotEnoughTickArrayAccount), k;
      }
      at, left, k := left[0], left[1..], k + 1;
      if at !in ix.arrays {
        return Err(InvalidTickArray), k;
      }
    }
    return Ok((at, left)), k;
  }

  /** The first tick of a marked array all of which lies ahead is the next one. It is there, so the
      error of `first_initialized_tick` cannot occur here. */
  method FirstTickOf(ix: Index, spacing: nat, ghost ticks: map<int, TickState>, tick: int, c: int, zeroForOne: bool)
    returns (next: TickState)
    requires Holds(ix, spacing, ticks) && Marked(ix, c)
    requires NoneBefore(spacing, ticks, tick, c, zeroForOne) && AllAheadIn(spacing, ticks, tick, c, zeroForOne)
    ensures NextTick(ticks, tick, zeroForOne) == Some(next.tick) && next == TickOf(ticks, next.tick)
    ensures next.IsInitialized() && ArrayOf(next.tick, spacing) == c
  {
    hide Represents, IsSet, SlotNumber, TickCount, ArrayOf, NextTick, NoneBefore, AllAheadIn, Initialized;
    MarkedHasTick(ix, spacing, c);
    var first := FirstInitializedTick(ix.arrays[c], zeroForOne);
    FirstIsNext(ix, spacing, ticks, tick, c, first.value, zeroForOne);
    SlotIsTick(ix, spacing, ticks, c, first.value);
    next := ix.arrays[c].ticks[first.value];
  }

  /** The search part of a turn of `swap_internal`. `c` is the array at hand, `rest` the further arrays
      passed to the swap, in order. What it finds is the nearest initialized tick, and with all the
      arrays there it finds one whenever one is left. */
  method FindNextTick(ix: Index, spacing: nat, ghost ticks: map<int, TickState>, tick: int, zeroForOne: bool, supplied: bool,
                      c: int, entered: bool, rest: seq<int>) returns (r: Result<Found>)
    requires Holds(ix, spacing, ticks) && Searching(ix, spacing, ticks, tick, c, entered, zeroForOne)
    ensures r.Ok? ==>
              var next := r.value.next.tick;
              && NextTick(ticks, tick, zeroForOne) == Some(next)
              && r.value.next == TickOf(ticks, next) && r.value.next.IsInitialized()
              && r.value.at == ArrayOf(next, spacing) && Marked(ix, r.value.at)
    ensures Complete(ix, rest, c, zeroForOne, supplied) ==>
              if r.Ok? then Complete(ix, r.value.rest, r.value.at, zeroForOne, supplied) else NextTick(ticks, tick, zeroForOne) == None
  {
    hide Coherent, Represents, IsSet, SlotNumber, TickCount, ArrayOf, NextTick, NextInitializedArray, NoneBefore, AllAheadIn,
      NothingAheadIn, Near, Initialized, Shifted, IsAnswer, GetArrayStartIndex, Complete;
    ArrayShape(ix, spacing, ticks, c);
    var a := ix.arrays[c];
    var inArray := NextInitializedTick(a, tick, spacing, zeroForOne);
    StartIndexIsFloor(tick, spacing);
    SamePlaceStart(tick, c, spacing);
    if inArray.Some? {
      WithinIsNext(ix, spacing, ticks, tick, c, inArray.value, zeroForOne);
      SlotIsTick(ix, spacing, ticks, c, inArray.value);
      return Ok(Found(a.ticks[inArray.value], c, rest));
    }
    if !entered {
      var first := FirstTickOf(ix, spacing, ticks, tick, c, zeroForOne);
      return Ok(Found(first, c, rest));
    }
    NothingLeft(ix, spacing, ticks, tick, c, zeroForOne);
    MarkedSearchSucceeds(ix, spacing, ticks, c, zeroForOne);
    if Complete(ix, rest, c, zeroForOne, supplied) { CompleteIsSupplied(ix, rest, c, zeroForOne, supplied); }
    var found :- NextInitializedArray(ix.bitmap, if supplied then Some(ix.extension) else None, a.start, spacing, zeroForOne);
    if found.None? {
      NoneFurther(ix, spacing, ticks, tick, c, zeroForOne, supplied);
      return Err(LiquidityInsufficient);
    }
    ghost var c' := NextArrayIs(ix, spacing, ticks, c, zeroForOne, supplied, found.value);
    var taking, taken := TakeArray(ix, found.value, c, rest);
    TakenIs(ix, spacing, ticks, c, c', rest, found.value, taking, taken, zeroForOne, supplied);
    var next :- taking;
    NextArrayHoldsRest(ix, spacing, ticks, tick, c, next.0, zeroForOne);
    var first := FirstTickOf(ix, spacing, ticks, tick, next.0, zeroForOne);
    return Ok(Found(first, next.0, next.1));
  }

  /** The accounts from array `c` on are all there, and the extension too. */
  ghost predicate Complete(ix: Index, rest: seq<int>, c: int, zeroForOne: bool, supplied: bool) {
    supplied && InSwapOrder(ix, rest, zeroForOne) && Covers(ix, rest, c, zeroForOne)
  }

  lemma CompleteIsSupplied(ix: Index, rest: seq<int>, c: int, zeroForOne: bool, supplied: bool)
    requires Complete(ix, rest, c, zeroForOne, supplied)
    ensures supplied
  {}

  /** The accounts passed at the start of a swap from `tick`: the tick's array is not refused, and every
      marked array from there on is among them. */
  ghost predicate Sufficient(ix: Index, accounts: seq<int>, tick: int, spacing: nat, zeroForOne: bool, supplied: bool)
    requires 0 < spacing
  {
    && supplied && !Refused(ArrayOf(tick, spacing), spacing) && InSwapOrder(ix, accounts, zeroForOne)
    && forall c :: Marked(ix, c) && Beyond(ArrayOf(tick, spacing), c, zeroForOne) ==> c in accounts
  }

  /** With no marked array in its direction a swap has no tick to go to. */
  lemma NoArrayNoTick(ix: Index, spacing: nat, ticks: map<int, TickState>, tick: int, zeroForOne: bool)
    requires Holds(ix, spacing, ticks)
    requires !Marked(ix, ArrayOf(tick, spacing)) && NoneMarkedBeyond(ix, ArrayOf(tick, spacing), zeroForOne)
    ensures NextTick(ticks, tick, zeroForOne) == None
  {
    hide Coherent, Represents, IsSet, NextTick, SlotNumber, ArrayOf, TickCount;
    NextTickIs(ticks, tick, zeroForOne);
    if NextTick(ticks, tick, zeroForOne).Some? {
      var t := NextTick(ticks, tick, zeroForOne).value;
      TickIsSlot(ix, spacing, ticks, t);
      AheadIsBeyond(tick, t, spacing, zeroForOne);
    }
  }

  /** Popping finds the array the bitmaps name, and does not pass over any that is needed later. */
  lemma TakenIs(ix: Index, spacing: nat, ticks: map<int, TickState>, c: int, c': int, rest: seq<int>, start: int,
                taking: Result<(int, seq<int>)>, k: nat, zeroForOne: bool, supplied: bool)
    requires Holds(ix, spacing, ticks) && c in ix.arrays && start == c' * TickCount(spacing)
    requires NearestMarked(ix, c, c', zeroForOne) && Marked(ix, c')
    requires taking.Ok? ==> taking.value.0 in ix.arrays && ix.arrays[taking.value.0].start == start
    requires taking.Ok? ==> k <= |rest| && taking.value.1 == rest[k..] && taking.value.0 == if k == 0 then c else rest[k - 1]
    requires taking.Err? && (forall d :: d in rest ==> d in ix.arrays) ==> forall d :: d in rest ==> ix.arrays[d].start != start
    ensures taking.Ok? ==> taking.value.0 == c'
    ensures Complete(ix, rest, c, zeroForOne, supplied) ==> taking.Ok? && Complete(ix, taking.value.1, c', zeroForOne, supplied)
  {
    hide Holds, IsSet, TickCount;
    if taking.Ok? { StartsDiffer(ix, spacing, ticks, taking.value.0, c'); }
    if Complete(ix, rest, c, zeroForOne, supplied) {
      assert c' in rest;
      if taking.Err? { StartsDiffer(ix, spacing, ticks, c', c'); }
      else { RestCovers(ix, rest, c, k - 1, zeroForOne); }
    }
  }

  lemma SamePlaceStart(tick: int, c: int, spacing: nat)
    requires 0 < spacing
    ensures ArrayOf(tick, spacing) == c <==> GetArrayStartIndex(tick, spacing) == c * TickCount(spacing)
  {
    StartIndexIsFloor(tick, spacing);
    CompareArrays(ArrayOf(tick, spacing), c, TickCount(spacing));
  }

  lemma ArrayShape(ix: Index, spacing: nat, ticks: map<int, TickState>, c: int)
    requires Holds(ix, spacing, ticks) && Marked(ix, c)
    ensures c in ix.arrays && ix.arrays[c].start == c * TickCount(spacing) && |ix.arrays[c].ticks| == TICK_ARRAY_SIZE
    ensures FirstArray(spacing) <= c <= LastArray(spacing)
  {
    hide IsSet;
  }

  /** With no slot of its array ahead, the tick has nothing ahead in that array. */
  lemma NothingLeft(ix: Index, spacing: nat, ticks: map<int, TickState>, tick: int, c: int, zeroForOne: bool)
    requires Holds(ix, spacing, ticks) && Searching(ix, spacing, ticks, tick, c, true, zeroForOne)
    requires c in ix.arrays && ArrayOf(tick, spacing) == c ==>
               forall k :: 0 <= k < TICK_ARRAY_SIZE && ix.arrays[c].ticks[k].IsInitialized() ==>
                 !(if zeroForOne then k <= (tick - c * TickCount(spacing)) / spacing else (tick - c * TickCount(spacing)) / spacing < k)
    ensures NothingAheadIn(spacing, ticks, tick, c, zeroForOne)
  {
    hide Coherent, Represents, IsSet, SlotNumber, TickCount, ArrayOf;
    if ArrayOf(tick, spacing) == c {
      forall t | TickOf(ticks, t).IsInitialized() && ArrayOf(t, spacing) == c ensures !Ahead(tick, t, zeroForOne) {
        TickIsSlot(ix, spacing, ticks, t);
        AheadByOffset(tick, c, SlotNumber(t, spacing), spacing, zeroForOne);
      }
    }
  }

  /** The start the bitmaps name is that of the nearest marked array. */
  lemma NextArrayIs(ix: Index, spacing: nat, ticks: map<int, TickState>, c: int, zeroForOne: bool, supplied: bool, start: int)
    returns (c': int)
    requires Holds(ix, spacing, ticks) && Marked(ix, c)
    requires NextInitializedArray(ix.bitmap, if supplied then Some(ix.extension) else None, c * TickCount(spacing), spacing, zeroForOne) == Ok(Some(start))
    ensures start == c' * TickCount(spacing) && NearestMarked(ix, c, c', zeroForOne) && Marked(ix, c')
  {
    hide IsSet, Clear, NextInitializedArray, TickCount, FirstArray, LastArray;
    ArrayShape(ix, spacing, ticks, c);
    SearchResult(ix, c, spacing, zeroForOne, supplied);
    c' :| start == c' * TickCount(spacing) && Nearest(ix.bitmap, ix.extension, c, c', zeroForOne);
  }

  /** When the search names none, no tick is left ahead; with the extension supplied it never errs. */
  lemma NoneFurther(ix: Index, spacing: nat, ticks: map<int, TickState>, tick: int, c: int, zeroForOne: bool, supplied: bool)
    requires Holds(ix, spacing, ticks) && Marked(ix, c)
    requires NoneBefore(spacing, ticks, tick, c, zeroForOne) && NothingAheadIn(spacing, ticks, tick, c, zeroForOne)
    requires NextInitializedArray(ix.bitmap, if supplied then Some(ix.extension) else None, c * TickCount(spacing), spacing, zeroForOne) == Ok(None)
    ensures NextTick(ticks, tick, zeroForOne) == None
  {
    hide Coherent, Represents, IsSet, NextTick, NextInitializedArray, TickCount, FirstArray, LastArray, SlotNumber, ArrayOf;
    ArrayShape(ix, spacing, ticks, c);
    assert BitsFollowCounts(ix, spacing) by { BitsOfHeld(ix, spacing, ticks); }
    SearchResult(ix, c, spacing, zeroForOne, supplied);
    NextTickIs(ticks, tick, zeroForOne);
    if NextTick(ticks, tick, zeroForOne).Some? { TickIsSlot(ix, spacing, ticks, NextTick(ticks, tick, zeroForOne).value); }
  }

  lemma MarkedSearchSucceeds(ix: Index, spacing: nat, ticks: map<int, TickState>, c: int, zeroForOne: bool)
    requires Holds(ix, spacing, ticks) && Marked(ix, c)
    ensures NextInitializedArray(ix.bitmap, Some(ix.extension), c * TickCount(spacing), spacing, zeroForOne).Ok?
  {
    hide IsSet, NextInitializedArray, Initialized;
    ArrayShape(ix, spacing, ticks, c);
    SuppliedSearchSucceeds(ix, c, spacing, zeroForOne);
  }

  lemma BitsOfHeld(ix: Index, spacing: nat, ticks: map<int, TickState>)
    requires Holds(ix, spacing, ticks)
    ensures BitsFollowCounts(ix, spacing)
  {}

  /** Arrays are told apart by where they start. */
  lemma StartsDiffer(ix: Index, spacing: nat, ticks: map<int, TickState>, c: int, d: int)
    requires Holds(ix, spacing, ticks) && c in ix.arrays
    ensures ix.arrays[c].start == d * TickCount(spacing) <==> c == d
  {
    hide Initialized, IsSet, Represents, SlotNumber, FirstArray, LastArray;
    CompareArrays(c, d, TickCount(spacing));
    CompareArrays(d, c, TickCount(spacing));
  }

  lemma PositiveCount(spacing: nat)
    requires 0 < spacing
    ensures 0 < TickCount(spacing)
  {}
}
