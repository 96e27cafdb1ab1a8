/** Tick arrays and bitmaps follow every change of the ledger's ticks. */
module IndexSafety {
  import opened Wrappers
  import opened FullMath
  import opened PoolTypes
  import opened TickGrowth
  import opened Ledger
  import opened Sums
  import opened Invariants
  import opened PositionLemmas
  import opened PositionSafety
  import opened ArrayIndex
  import opened NearestArray
  import opened TickIndex
  import opened TickSearch
  import opened LiquidityMath
  import opened Bits

  /** Tick `t` has a slot in an array that exists. */
  ghost predicate Placed(ix: Index, t: int, spacing: nat)
    requires 0 < spacing
  {
    Aligned(t, spacing) && ArrayOf(t, spacing) in ix.arrays
  }

  /** Both ends of every range do. */
  ghost predicate PlacedRanges(ix: Index, protocols: seq<ProtocolPosition>, spacing: nat)
    requires 0 < spacing
  {
    forall j :: 0 <= j < |protocols| ==> Placed(ix, protocols[j].tickLower, spacing) && Placed(ix, protocols[j].tickUpper, spacing)
  }

  /** The accounts of the index agree with the ledger. */
  ghost predicate IndexInv(ix: Index, l: Ledger) {
    && 0 < l.pool.tickSpacing
    && Coherent(ix, l.pool.tickSpacing)
    && Represents(ix, l.pool.tickSpacing, l.ticks)
    && PlacedRanges(ix, l.protocols, l.pool.tickSpacing)
  }

  lemma ChangeFlipsRight(t: TickState, tickCurrent: int, delta: int, growth: Five, upper: bool)
    requires UpdateTickUnlessZero(t, tickCurrent, delta, growth, upper).Ok?
    ensures var (t', flipped) := UpdateTickUnlessZero(t, tickCurrent, delta, growth, upper).value;
            FlipsRight(t, Settled(t', delta, flipped), flipped, delta > 0)
  {}

  /** The ticks of range `j` are stored as the change `m` leaves them. */
  ghost function StoreModifiedTicks(ix: Index, l: Ledger, j: nat, m: Modified, add: bool, supplied: bool): Result<Index>
    requires IndexInv(ix, l) && j < |l.protocols|
  {
    var p := l.protocols[j];
    StoreBoth(ix, p.tickLower, p.tickUpper, l.pool.tickSpacing, m.lower, m.upper, m.flippedLower, m.flippedUpper, add, supplied)
  }

  /** A change of liquidity reports the ticks that gained their first or lost their last reference. */
  lemma ModifyFlipsRight(ix: Index, l: Ledger, j: nat, delta: int, timestamp: nat, m: Modified)
    requires IndexInv(ix, l) && j < |l.protocols| && Modifies(l, j, delta, timestamp, m)
    ensures var p, spacing := l.protocols[j], l.pool.tickSpacing;
            && WellFormed(ix, spacing)
            && FlipsRight(SlotAt(ix, p.tickLower, spacing), m.lower, m.flippedLower, delta > 0)
            && FlipsRight(SlotAt(ix, p.tickUpper, spacing), m.upper, m.flippedUpper, delta > 0)
  {
    hide Coherent, Represents, WellFormed, ModifyPosition, UpdateRewardInfos, UpdateTickUnlessZero, GrowthInside, FlipsRight,
      ArrayOf, SlotNumber, Settled, Aligned, SlotAt;
    var p, spacing := l.protocols[j], l.pool.tickSpacing;
    var lower, upper := NamedTick(l.ticks, p.tickLower), NamedTick(l.ticks, p.tickUpper);
    var updated, a, flippedA, b, flippedB := ModifyUnfolds(l.table, l.pool, p, lower, upper, delta, timestamp, m);
    InfosOnlyGrow(l.pool, timestamp);
    ChangeFlipsRight(lower, l.pool.tickCurrent, delta, updated.growthGlobal, false);
    ChangeFlipsRight(upper, l.pool.tickCurrent, delta, updated.growthGlobal, true);
    SlotOfLedger(ix, l, p.tickLower);
    SlotOfLedger(ix, l, p.tickUpper);
    NamedFlips(TickOf(l.ticks, p.tickLower), p.tickLower, m.lower, flippedA, delta > 0);
    NamedFlips(TickOf(l.ticks, p.tickUpper), p.tickUpper, m.upper, flippedB, delta > 0);
  }

  /** Minting and burning keep arrays, counts and bits in step with the ticks. */
  lemma ModifyKeepsIndex(ix: Index, l: Ledger, j: nat, delta: int, timestamp: nat, m: Modified, supplied: bool, ix': Index)
    requires IndexInv(ix, l) && j < |l.protocols| && Modifies(l, j, delta, timestamp, m)
    requires l.protocols[j].tickLower < l.protocols[j].tickUpper && NamedSlots(l)
    requires StoreModifiedTicks(ix, l, j, m, delta > 0, supplied) == Ok(ix')
    ensures IndexInv(ix', StoreModified(l, j, m))
  {
    hide Coherent, Represents, StoreBoth, WellFormed, BitsFollowCounts, Modifies, FlipsRight, SlotAt, ArrayOf, SlotNumber, Aligned;
    var p, spacing := l.protocols[j], l.pool.tickSpacing;
    ModifyFlipsRight(ix, l, j, delta, timestamp, m);
    assert BitsFollowCounts(ix, spacing) by { BitsOf(ix, spacing); }
    StoredKeepsCoherent(ix, p.tickLower, p.tickUpper, spacing, m.lower, m.upper, m.flippedLower, m.flippedUpper, delta > 0, supplied, ix');
    StoredRepresents(ix, p.tickLower, p.tickUpper, spacing, m.lower, m.upper, m.flippedLower, m.flippedUpper, delta > 0, supplied, ix', l.ticks);
    ModifyKeepsEnds(l, j, delta, timestamp, m);
    NamedSlotIs(l, p.tickLower);
    NamedSlotIs(l, p.tickUpper);
    ModifiesKeepsSpacing(l, j, delta, timestamp, m);
    PlacesKept(ix, ix', l.protocols, StoreModified(l, j, m).protocols, j, spacing);
  }

  lemma PlacesKept(ix: Index, ix': Index, before: seq<ProtocolPosition>, after: seq<ProtocolPosition>, j: nat, spacing: nat)
    requires 0 < spacing && PlacedRanges(ix, before, spacing) && ix'.arrays.Keys == ix.arrays.Keys
    requires j < |before| && |after| == |before| && after == before[j := after[j]]
    requires after[j].tickLower == before[j].tickLower && after[j].tickUpper == before[j].tickUpper
    ensures PlacedRanges(ix', after, spacing)
  {
    hide Aligned, ArrayOf;
  }

  /** The arrays at both ends of range `j` can be counted. */
  predicate CountableRange(l: Ledger, j: nat, add: bool, supplied: bool)
    requires j < |l.protocols| && 0 < l.pool.tickSpacing
  {
    CountableEnds(l.protocols[j].tickLower, l.protocols[j].tickUpper, l.pool.tickSpacing, add, supplied)
  }

  predicate CountableEnds(lower: int, upper: int, spacing: nat, add: bool, supplied: bool)
    requires 0 < spacing
  {
    Countable(ArrayOf(lower, spacing), spacing, add, supplied) && Countable(ArrayOf(upper, spacing), spacing, add, supplied)
  }

  /** The index follows every change of liquidity whose arrays can be counted. */
  lemma ModifyIsStored(ix: Index, l: Ledger, j: nat, delta: int, timestamp: nat, m: Modified, supplied: bool)
    requires IndexInv(ix, l) && j < |l.protocols| && Modifies(l, j, delta, timestamp, m)
    requires l.protocols[j].tickLower < l.protocols[j].tickUpper && CountableRange(l, j, delta > 0, supplied)
    ensures StoreModifiedTicks(ix, l, j, m, delta > 0, supplied).Ok?
  {
    hide Coherent, Represents, StoreBoth, WellFormed, Modifies, FlipsRight, ArrayOf, SlotNumber, Aligned, Countable;
    var p, spacing := l.protocols[j], l.pool.tickSpacing;
    ModifyFlipsRight(ix, l, j, delta, timestamp, m);
    StoreSucceeds(ix, p.tickLower, p.tickUpper, spacing, m.lower, m.upper, m.flippedLower, m.flippedUpper, delta > 0, supplied);
  }

  /** The spacing never changes. */
  lemma ModifyKeepsSpacing(table: PriceTable, pool: PoolState, p: ProtocolPosition, lower: TickState, upper: TickState,
                           delta: int, timestamp: nat, m: Modified)
    requires ModifyPosition(table, pool, p, lower, upper, delta, timestamp) == Ok(m)
    ensures m.pool.tickSpacing == pool.tickSpacing
  {
    hide ModifyPosition, UpdateRewardInfos;
    var updated, a, flippedA, b, flippedB := ModifyUnfolds(table, pool, p, lower, upper, delta, timestamp, m);
    InfosOnlyGrow(pool, timestamp);
  }

  lemma ModifiesKeepsSpacing(l: Ledger, j: nat, delta: int, timestamp: nat, m: Modified)
    requires j < |l.protocols| && Modifies(l, j, delta, timestamp, m)
    ensures m.pool.tickSpacing == l.pool.tickSpacing
  {
    hide ModifyPosition;
    var p := l.protocols[j];
    ModifyKeepsSpacing(l.table, l.pool, p, NamedTick(l.ticks, p.tickLower), NamedTick(l.ticks, p.tickUpper), delta, timestamp, m);
  }

  lemma NamedSlotIs(l: Ledger, tick: int)
    requires NamedSlots(l)
    ensures NamedTick(l.ticks, tick).tick == tick
  {}

  lemma BitsOf(ix: Index, spacing: nat)
    requires 0 < spacing && Coherent(ix, spacing)
    ensures BitsFollowCounts(ix, spacing) && WellFormed(ix, spacing)
  {}

  lemma SlotOfLedger(ix: Index, l: Ledger, tick: int)
    requires IndexInv(ix, l) && Aligned(tick, l.pool.tickSpacing)
    ensures WellFormed(ix, l.pool.tickSpacing) && SlotAt(ix, tick, l.pool.tickSpacing) == TickOf(l.ticks, tick)
  {}

  /** Filling in its index does not make a slot initialized. */
  lemma NamedFlips(t: TickState, tick: int, after: TickState, flipped: bool, add: bool)
    ensures FlipsRight(if t.tick == 0 then t.(tick := tick) else t, after, flipped, add) <==> FlipsRight(t, after, flipped, add)
  {}

  /** A change of liquidity leaves a range where it is. */
  lemma ModifyKeepsEnds(l: Ledger, j: nat, delta: int, timestamp: nat, m: Modified)
    requires j < |l.protocols| && Modifies(l, j, delta, timestamp, m)
    ensures m.protocol.tickLower == NamedTick(l.ticks, l.protocols[j].tickLower).tick
    ensures m.protocol.tickUpper == NamedTick(l.ticks, l.protocols[j].tickUpper).tick
  {
    hide GrowthInside, GetDeltaAmountsSigned, AddDelta;
  }

  // -----------------------------------------------------------------------------------------
  // Creating arrays and ranges

  /** `get_or_create_tick_array` */
  function WithArray(ix: Index, c: int, spacing: nat): Index {
    if c in ix.arrays then ix else ix.(arrays := ix.arrays[c := NewArray(c, spacing)])
  }

  /** An empty array changes nothing but its own presence. */
  lemma WithArrayKeepsIndex(ix: Index, l: Ledger, c: int)
    requires IndexInv(ix, l) && FirstArray(l.pool.tickSpacing) <= c <= LastArray(l.pool.tickSpacing)
    ensures IndexInv(WithArray(ix, c, l.pool.tickSpacing), l) && c in WithArray(ix, c, l.pool.tickSpacing).arrays
  {
    var spacing, ix' := l.pool.tickSpacing, WithArray(ix, c, l.pool.tickSpacing);
    if c !in ix.arrays {
      NoneInitialized(EmptyTicks(), TICK_ARRAY_SIZE);
      NewArrayIsCoherent(ix, c, spacing);
      forall t ensures TickOf(l.ticks, t) == if Aligned(t, spacing) then SlotAt(ix', t, spacing) else DEFAULT_TICK {
        hide ArrayOf, SlotNumber, TickCount, Aligned, Coherent;
        if Aligned(t, spacing) {
          SlotOfTick(t, spacing);
          assert TickOf(l.ticks, t) == SlotAt(ix, t, spacing);
        }
      }
    }
  }

  lemma NewArrayIsCoherent(ix: Index, c: int, spacing: nat)
    requires 0 < spacing && Coherent(ix, spacing) && c !in ix.arrays && FirstArray(spacing) <= c <= LastArray(spacing)
    ensures Coherent(WithArray(ix, c, spacing), spacing)
  {
    hide IsSet, FirstArray, LastArray, TickCount;
    NoneInitialized(EmptyTicks(), TICK_ARRAY_SIZE);
    var ix' := WithArray(ix, c, spacing);
    forall d ensures Marked(ix', d) <==> d in ix'.arrays && ix'.arrays[d].count > 0 {
      assert Marked(ix', d) <==> Marked(ix, d);
    }
  }

  /** Writing a slot's index into it. */
  lemma RenamedKeepsIndex(ix: Index, spacing: nat, ticks: map<int, TickState>, tick: int)
    requires 0 < spacing && Coherent(ix, spacing) && Represents(ix, spacing, ticks) && Aligned(tick, spacing)
    requires ArrayOf(tick, spacing) in ix.arrays
    ensures var state := TickOf(ticks, tick).(tick := tick);
            Coherent(WithSlot(ix, tick, spacing, state), spacing) &&
            Represents(WithSlot(ix, tick, spacing, state), spacing, ticks[tick := state])
  {
    hide ArrayOf, SlotNumber, TickCount, Aligned, WithSlot, Initialized, IsSet;
    var state := TickOf(ticks, tick).(tick := tick);
    CountsAfterWrite(ix, tick, spacing, state);
    WithSlotRepresents(ix, tick, spacing, state, ticks);
    assert SlotAt(ix, tick, spacing) == TickOf(ticks, tick);
  }

  // -----------------------------------------------------------------------------------------
  // Looking ticks up

  lemma OutsideUninitialized(l: Ledger, t: int)
    requires StructureInv(l) && !(MIN_TICK <= t <= MAX_TICK)
    ensures !TickOf(l.ticks, t).IsInitialized()
  {
    var none := seq(|l.protocols|, j requires 0 <= j < |l.protocols| => 0);
    assert Terms(l.protocols, Gross(t)) == none;
    SumToZero(none, |none|);
    assert TickOf(l.ticks, t).liquidityGross == Total(l.protocols, Gross(t));
  }

  /** Only ticks at which some range ends are initialized, and those lie in the tick range. */
  lemma InitializedInRange(l: Ledger, t: int)
    requires StructureInv(l) && TickOf(l.ticks, t).IsInitialized()
    ensures MIN_TICK <= t <= MAX_TICK && TickOf(l.ticks, t).tick == t
  {
    if !(MIN_TICK <= t <= MAX_TICK) { OutsideUninitialized(l, t); }
  }

  lemma {:induction false} SumToZero(s: seq<int>, n: nat)
    requires n <= |s| && forall k :: 0 <= k < n ==> s[k] == 0
    ensures SumTo(s, n) == 0
  {
    if n > 0 { SumToZero(s, n - 1); }
  }

  lemma IndexHolds(ix: Index, l: Ledger)
    requires IndexInv(ix, l) && StructureInv(l)
    ensures Holds(ix, l.pool.tickSpacing, l.ticks)
  {
    forall t | TickOf(l.ticks, t).IsInitialized() ensures MIN_TICK <= t <= MAX_TICK && TickOf(l.ticks, t).tick == t {
      InitializedInRange(l, t);
    }
  }

  /** Each initialized tick stores start + offset * spacing of its place. */
  lemma SlotsKnowTheirTick(ix: Index, l: Ledger, c: int, k: nat)
    requires IndexInv(ix, l) && StructureInv(l) && c in ix.arrays && k < TICK_ARRAY_SIZE
    requires |ix.arrays[c].ticks| == TICK_ARRAY_SIZE && ix.arrays[c].ticks[k].IsInitialized()
    ensures ix.arrays[c].ticks[k].tick == ix.arrays[c].start + k * l.pool.tickSpacing
  {
    hide Initialized, IsSet, FirstArray, LastArray;
    IndexHolds(ix, l);
    SlotIsTick(ix, l.pool.tickSpacing, l.ticks, c, k);
  }

  // -----------------------------------------------------------------------------------------
  // Crossing

  /** Only aligned ticks are initialized, and their arrays exist. */
  lemma InitializedIsAligned(ix: Index, spacing: nat, ticks: map<int, TickState>, t: int)
    requires Holds(ix, spacing, ticks) && TickOf(ticks, t).IsInitialized()
    ensures 0 < spacing && Aligned(t, spacing) && WellFormed(ix, spacing) && ArrayOf(t, spacing) in ix.arrays
  {
    hide IsSet, SlotNumber, Initialized;
    assert Aligned(t, spacing);
    TickIsSlot(ix, spacing, ticks, t);
  }

  /** Crossing a tick rewrites its slot and nothing the index counts or marks. */
  lemma CrossedKeepsHolds(ix: Index, spacing: nat, ticks: map<int, TickState>, t: int, state: TickState)
    requires Holds(ix, spacing, ticks) && TickOf(ticks, t).IsInitialized()
    requires state == TickOf(ticks, t).(growthOutside := state.growthOutside)
    requires Aligned(t, spacing) && WellFormed(ix, spacing) && ArrayOf(t, spacing) in ix.arrays
    ensures var ix' := WithSlot(ix, t, spacing, state);
            Holds(ix', spacing, ticks[t := state]) && forall c :: Marked(ix', c) <==> Marked(ix, c)
  {
    hide ArrayOf, SlotNumber, TickCount, Aligned, Initialized, IsSet;
    CountsAfterWrite(ix, t, spacing, state);
    WithSlotRepresents(ix, t, spacing, state, ticks);
    assert SlotAt(ix, t, spacing) == TickOf(ticks, t);
  }

  // -----------------------------------------------------------------------------------------
  // A new pool

  function NoBitmaps(): (r: seq<nat>)
    ensures |r| == EXTENSION_TICKARRAY_BITMAP_SIZE && forall i :: 0 <= i < |r| ==> r[i] == 0
  {
    seq(EXTENSION_TICKARRAY_BITMAP_SIZE, i => 0)
  }

  function EmptyIndex(): Index {
    Index(map[], 0, Extension(NoBitmaps(), NoBitmaps()))
  }

  lemma EmptyIndexHolds(l: Ledger)
    requires 0 < l.pool.tickSpacing && l.ticks == map[] && l.protocols == []
    ensures IndexInv(EmptyIndex(), l)
  {
    ShiftedLe(1, 1, 512);
    ShiftedLe(1, 1, 1024);
    forall c ensures !Marked(EmptyIndex(), c) {
      NoBits(0, if InPoolRange(c) then c + 512 else c % 512);
    }
  }
}
