/** The client's quote (client/src/instructions/utils.rs, `swap_compute`), and its agreement with
    the program on the same pool. */
module Quote {
  import opened Wrappers
  import opened FullMath
  import opened PoolTypes
  import opened TickGrowth
  import opened Ledger
  import opened Invariants
  import opened SwapMath
  import opened SwapPath
  import opened SwapLedger
  import opened SwapOutcome
  import opened RewardOutcome
  import opened SwapRoute
  import opened LiquidityMath
  import opened Bits
  import opened ArrayIndex
  import opened NearestArray
  import opened TickIndex
  import opened TickSearch

  const LOOP_LIMIT: nat := 10

  /** The quote also stops at the first and the last tick. */
  predicate QuoteDone(s: Setting, p: Path) {
    Done(s, p) || p.tick >= MAX_TICK || p.tick <= MIN_TICK
  }

  /** The quote's loop from its turn number `count` on. */
  function QuoteLoop(s: Setting, ticks: map<int, TickState>, p: Path, count: nat): Result<Path>
    decreases LOOP_LIMIT + 1 - count, p.tick
  {
    if QuoteDone(s, p) then Ok(p)
    else if count > LOOP_LIMIT then Err(RequireViolated)
    else
      var hop :- HopFrom(s, ticks, p);
      var next :- Advance(s, ticks, p, hop);
      QuoteLoop(s, ticks, next, count + 1)
  }

  predicate QuoteLimitInRange(limit: nat, sqrtPrice: nat, zeroForOne: bool) {
    if zeroForOne then MIN_SQRT_PRICE <= limit < sqrtPrice else sqrtPrice < limit <= MAX_SQRT_PRICE
  }

  /** The other amount, as quoted. */
  function QuoteOf(table: PriceTable, feeRate: nat, pool: PoolState, ticks: map<int, TickState>, amount: nat, limit: nat,
                   zeroForOne: bool, baseInput: bool): Result<nat>
  {
    var _ :- Require(amount != 0, InvalidSwapAmountSpecified);
    var s := Setting(table, feeRate, LimitOrDefault(limit, zeroForOne), baseInput, zeroForOne);
    var _ :- Require(QuoteLimitInRange(s.limit, pool.sqrtPrice, zeroForOne), SqrtPriceLimitOverflow);
    var end :- QuoteLoop(s, ticks, Path(amount, 0, pool.sqrtPrice, pool.tickCurrent, pool.liquidity), 0);
    Ok(end.calculated)
  }

  /** How often the loop meets its next tick in another tick array than the one it stands in, which is `c`. */
  function ArrayChanges(s: Setting, ticks: map<int, TickState>, spacing: nat, p: Path, c: int, count: nat): nat
    requires 0 < spacing
    decreases LOOP_LIMIT + 1 - count, p.tick
  {
    if QuoteDone(s, p) || count > LOOP_LIMIT then 0
    else
      var hop := HopFrom(s, ticks, p);
      if hop.Err? then 0
      else
        var at := ArrayOf(hop.value.next, spacing);
        var next := Advance(s, ticks, p, hop.value);
        (if at == c then 0 else 1) + (if next.Err? then 0 else ArrayChanges(s, ticks, spacing, next.value, at, count + 1))
  }

  /** The changes of arrays a whole quote asks for when it sets out from array `c`. */
  function ArraysLeft(table: PriceTable, feeRate: nat, pool: PoolState, ticks: map<int, TickState>, amount: nat, limit: nat,
                      zeroForOne: bool, baseInput: bool, c: int): nat
    requires 0 < pool.tickSpacing
  {
    ArrayChanges(Setting(table, feeRate, LimitOrDefault(limit, zeroForOne), baseInput, zeroForOne), ticks, pool.tickSpacing,
                 Path(amount, 0, pool.sqrtPrice, pool.tickCurrent, pool.liquidity), c, 0)
  }

  // -----------------------------------------------------------------------------------------
  // The client's loop on its tick arrays

  /** A snapshot of a pool: tick and price agree, and the index holds the ticks. */
  ghost predicate Snapshot(table: PriceTable, feeRate: nat, pool: PoolState, ix: Index, ticks: map<int, TickState>) {
    && ValidTable(table) && feeRate < FEE_RATE_DENOMINATOR
    && MIN_TICK <= pool.tickCurrent < MAX_TICK
    && Price(table, pool.tickCurrent) <= pool.sqrtPrice <= Price(table, pool.tickCurrent + 1)
    && Holds(ix, pool.tickSpacing, ticks)
  }

  /** The tick arrays still queued lie strictly beyond `c`, in order. */
  ghost predicate QueuedBeyond(ix: Index, c: int, queue: seq<int>, zeroForOne: bool) {
    InSwapOrder(ix, queue, zeroForOne) && forall d :: d in queue ==> d != c && Beyond(c, d, zeroForOne)
  }

  /** The queue goes on with the marked array next to `c`, if there is one. */
  ghost predicate NextQueued(ix: Index, c: int, queue: seq<int>, zeroForOne: bool) {
    forall d :: NearestMarked(ix, c, d, zeroForOne) ==> queue != [] && queue[0] == d
  }

  /** The search of one turn. The client asks the bitmaps for the array after the swap's first one, `c0`,
      whichever array it has reached, and compares the answer with the one array it takes off the queue. */
  method QuoteNextTick(ix: Index, spacing: nat, ghost ticks: map<int, TickState>, tick: int, zeroForOne: bool, c0: int,
                       c: int, entered: bool, queue: seq<int>) returns (r: Result<Found>)
    requires Holds(ix, spacing, ticks) && Searching(ix, spacing, ticks, tick, c, entered, zeroForOne)
    requires Marked(ix, c0) && (c == c0 || NearestMarked(ix, c0, c, zeroForOne)) && QueuedBeyond(ix, c, queue, zeroForOne)
    ensures r.Ok? ==>
              var next := r.value.next.tick;
              && NextTick(ticks, tick, zeroForOne) == Some(next)
              && r.value.next == TickOf(ticks, next) && r.value.next.IsInitialized()
              && r.value.at == ArrayOf(next, spacing) && Marked(ix, r.value.at)
    ensures r.Ok? ==> if r.value.at == c then r.value.rest == queue
                      else c == c0 && NearestMarked(ix, c0, r.value.at, zeroForOne) && QueuedBeyond(ix, r.value.at, r.value.rest, zeroForOne)
    ensures r.Err? && c == c0 && NextQueued(ix, c0, queue, zeroForOne) ==> NextTick(ticks, tick, zeroForOne) == None
    ensures c != c0 ==> (r.Err? <==> NothingAheadIn(spacing, ticks, tick, c, zeroForOne))
  {
    hide Coherent, Represents, IsSet, SlotNumber, TickCount, ArrayOf, NextTick, NextInitializedArray, NoneBefore, AllAheadIn,
      NothingAheadIn, Near, Initialized, IsAnswer, GetArrayStartIndex, NearestMarked, QueuedBeyond, NextQueued;
    ArrayShape(ix, spacing, ticks, c);
    ArrayShape(ix, spacing, ticks, c0);
    var a := ix.arrays[c];
    var inArray := NextInitializedTick(a, tick, spacing, zeroForOne);
    StartIndexIsFloor(tick, spacing);
    SamePlaceStart(tick, c, spacing);
    if inArray.Some? {
      WithinIsNext(ix, spacing, ticks, tick, c, inArray.value, zeroForOne);
      SlotIsTick(ix, spacing, ticks, c, inArray.value);
      NextIsAhead(spacing, ticks, tick, c, a.ticks[inArray.value].tick, zeroForOne);
      return Ok(Found(a.ticks[inArray.value], c, queue));
    }
    if !entered {
      var first := FirstTickOf(ix, spacing, ticks, tick, c, zeroForOne);
      NextIsAhead(spacing, ticks, tick, c, first.tick, zeroForOne);
      return Ok(Found(first, c, queue));
    }
    NothingLeft(ix, spacing, ticks, tick, c, zeroForOne);
    MarkedSearchSucceeds(ix, spacing, ticks, c0, zeroForOne);
    var found := NextInitializedArray(ix.bitmap, Some(ix.extension), ix.arrays[c0].start, spacing, zeroForOne).value;
    ghost var c' := c;
    if found.Some? { c' := NextArrayIs(ix, spacing, ticks, c0, zeroForOne, true, found.value); }
    else if c == c0 { NoneFurther(ix, spacing, ticks, tick, c, zeroForOne, true); }
    QueueAnswers(ix, spacing, ticks, c0, c, c', queue, found, zeroForOne);
    if queue == [] {
      return Err(NotEnoughTickArrayAccount);
    }
    var at, left := queue[0], queue[1..];
    if found.None? {
      return Err(LiquidityInsufficient);
    }
    if ix.arrays[at].start != found.value {
      return Err(InvalidTickArray);
    }
    NextArrayHoldsRest(ix, spacing, ticks, tick, c, at, zeroForOne);
    var first := FirstTickOf(ix, spacing, ticks, tick, at, zeroForOne);
    return Ok(Found(first, at, left));
  }

  lemma NextIsAhead(spacing: nat, ticks: map<int, TickState>, tick: int, c: int, next: int, zeroForOne: bool)
    requires 0 < spacing && NextTick(ticks, tick, zeroForOne) == Some(next) && ArrayOf(next, spacing) == c
    ensures !NothingAheadIn(spacing, ticks, tick, c, zeroForOne)
  {
    hide ArrayOf;
    NextTickIs(ticks, tick, zeroForOne);
  }

  /** What the answer for the first array means for the head of the queue: from the first array itself it
      names the next one; later it names the array already reached, which the queue no longer holds. */
  lemma QueueAnswers(ix: Index, spacing: nat, ticks: map<int, TickState>, c0: int, c: int, c': int, queue: seq<int>, found: Option<int>,
                     zeroForOne: bool)
    requires Holds(ix, spacing, ticks) && (c == c0 || NearestMarked(ix, c0, c, zeroForOne)) && QueuedBeyond(ix, c, queue, zeroForOne)
    requires found.Some? ==> found.value == c' * TickCount(spacing) && NearestMarked(ix, c0, c', zeroForOne)
    ensures queue != [] ==> queue[0] in ix.arrays && QueuedBeyond(ix, queue[0], queue[1..], zeroForOne) && queue[0] != c
    ensures found.Some? && queue != [] && ix.arrays[queue[0]].start == found.value ==> queue[0] == c' && c == c0
    ensures found.Some? && c == c0 && NextQueued(ix, c0, queue, zeroForOne) ==> queue != [] && ix.arrays[queue[0]].start == found.value
  {
    hide Holds, IsSet, TickCount;
    if queue != [] {
      assert queue[0] in queue;
      StartsDiffer(ix, spacing, ticks, queue[0], c');
      forall d | d in queue[1..] ensures d != queue[0] && Beyond(queue[0], d, zeroForOne) {
        var i :| 0 <= i < |queue[1..]| && queue[1..][i] == d;
        assert queue[i + 1] == d;
      }
    }
  }

  /** One turn of the quote: the step and, on arrival, the change of liquidity. */
  method QuoteTurn(s: Setting, path: Path, found: TickState, ghost ticks: map<int, TickState>) returns (r: Result<Path>)
    requires NextTick(ticks, path.tick, s.zeroForOne) == Some(found.tick) && found == TickOf(ticks, found.tick)
    requires MIN_TICK <= found.tick <= MAX_TICK
    ensures var hop := HopFrom(s, ticks, path);
            if r.Ok? then hop.Ok? && Advance(s, ticks, path, hop.value) == r else hop.Err? || Advance(s, ticks, path, hop.value).Err?
  {
    hide StepOf, NextTick, TickAtSqrtPrice, AddDelta;
    var next := found.tick;
    var priceNext :- PriceAt(s.table, if next < MIN_TICK then MIN_TICK else if next > MAX_TICK then MAX_TICK else next);
    var target := Target(s, priceNext);
    var step :- ComputeSwapStep(path.sqrtPrice, target, path.liquidity, path.remaining, s.feeRate, s.baseInput, s.zeroForOne);
    ghost var hop := Hop(next, priceNext, target, step, step.sqrtPriceNext == priceNext);
    assert HopFrom(s, ticks, path) == Ok(hop);
    var input :- Narrow(step.amountIn + step.feeAmount, U64_LIMIT);
    var remaining, calculated := path.remaining, path.calculated;
    if s.baseInput {
      remaining :- CheckedSub(remaining, input);
      calculated :- Narrow(calculated + step.amountOut, U64_LIMIT);
    } else {
      remaining :- CheckedSub(remaining, step.amountOut);
      calculated :- Narrow(calculated + input, U64_LIMIT);
    }
    var liquidity, tick := path.liquidity, path.tick;
    if step.sqrtPriceNext == priceNext {
      liquidity :- CrossedLiquidity(liquidity, found.liquidityNet, s.zeroForOne);
      tick := if s.zeroForOne then next - 1 else next;
    } else if step.sqrtPriceNext != path.sqrtPrice {
      tick :- TickAtSqrtPrice(s.table, step.sqrtPriceNext);
    }
    return Ok(Path(remaining, calculated, step.sqrtPriceNext, tick, liquidity));
  }

  /** `swap_compute` behind `get_first_initialized_tick_array`, on the tick arrays in `queue`. What it
      returns is the quote. Given the first two arrays it returns exactly when there is a quote that
      needs no second change of arrays. */
  method SwapCompute(table: PriceTable, feeRate: nat, pool: PoolState, ix: Index, ghost ticks: map<int, TickState>, queue: seq<int>,
                     amount: nat, limit: nat, zeroForOne: bool, baseInput: bool) returns (r: Result<nat>)
    requires Snapshot(table, feeRate, pool, ix, ticks) && InSwapOrder(ix, queue, zeroForOne)
    requires limit == 0 || MIN_SQRT_PRICE < limit < MAX_SQRT_PRICE
    ensures r.Ok? ==> QuoteOf(table, feeRate, pool, ticks, amount, limit, zeroForOne, baseInput) == r
    ensures r.Ok? ==> queue != [] && ArraysLeft(table, feeRate, pool, ticks, amount, limit, zeroForOne, baseInput, queue[0]) <= 1
    ensures Served(ix, pool.tickCurrent, pool.tickSpacing, queue, zeroForOne) ==>
              (r.Ok? <==> QuoteOf(table, feeRate, pool, ticks, amount, limit, zeroForOne, baseInput).Ok? &&
                          ArraysLeft(table, feeRate, pool, ticks, amount, limit, zeroForOne, baseInput, queue[0]) <= 1)
  {
    hide Holds, OnPath, ValidSetting, HopFrom, Advance, Searching, FirstInitializedArray, NextTick, QueuedBeyond, NextQueued,
      NearestMarked, Marked, GoodHop, QuoteLoop, ArrayChanges, ArrayOf, NothingAheadIn;
    var s := Setting(table, feeRate, LimitOrDefault(limit, zeroForOne), baseInput, zeroForOne);
    var state := Path(amount, 0, pool.sqrtPrice, pool.tickCurrent, pool.liquidity);
    SnapshotStarts(s, table, feeRate, pool, ix, ticks, limit, amount);
    var firstArray := FirstInitializedArray(ix, pool.tickCurrent, pool.tickSpacing, zeroForOne, true);
    if firstArray.Err? {
      return Err(firstArray.error);
    }
    var first := firstArray.value;
    if amount == 0 {
      return Err(InvalidSwapAmountSpecified);
    }
    if !QuoteLimitInRange(s.limit, pool.sqrtPrice, zeroForOne) {
      return Err(SqrtPriceLimitOverflow);
    }
    if queue == [] {
      return Err(NotEnoughTickArrayAccount);
    }
    var c0, rest := queue[0], queue[1..];
    QueuedExist(ix, pool.tickSpacing, ticks, queue, zeroForOne);
    if ix.arrays[c0].start != first.1 {
      return Err(InvalidTickArray);
    }
    FirstQueued(ix, pool.tickSpacing, ticks, pool.tickCurrent, queue, zeroForOne);
    var c, entered := c0, first.0;
    ghost var start := state;
    var count := 0;
    while state.remaining != 0 && state.sqrtPrice != s.limit && state.tick < MAX_TICK && state.tick > MIN_TICK
      invariant count <= LOOP_LIMIT + 1
      invariant QuoteLoop(s, ticks, state, count) == QuoteLoop(s, ticks, start, 0)
      invariant OnPath(s, state) && (!Done(s, state) ==> Searching(ix, pool.tickSpacing, ticks, state.tick, c, entered, zeroForOne))
      invariant QueuedBeyond(ix, c, rest, zeroForOne)
      invariant if c == c0 then rest == queue[1..] else NearestMarked(ix, c0, c, zeroForOne)
      invariant ArrayChanges(s, ticks, pool.tickSpacing, start, c0, 0)
             == (if c == c0 then 0 else 1) + ArrayChanges(s, ticks, pool.tickSpacing, state, c, count)
      decreases LOOP_LIMIT + 1 - count
    {
      LoopErrs(s, ticks, state, count);
      if count > LOOP_LIMIT {
        return Err(RequireViolated);
      }
      NoTickNoHop(s, ticks, state);
      if NothingAheadIn(pool.tickSpacing, ticks, state.tick, c, zeroForOne) { LeavingCounts(s, ticks, pool.tickSpacing, state, c, count); }
      NearestDiffers(ix, c0, c, zeroForOne);
      var found := QuoteNextTick(ix, pool.tickSpacing, ticks, state.tick, zeroForOne, c0, c, entered, rest);
      if found.Err? {
        return Err(found.error);
      }
      HeldInRange(ix, pool.tickSpacing, ticks, found.value.next.tick);
      var turn := QuoteTurn(s, state, found.value.next, ticks);
      if turn.Err? {
        return Err(turn.error);
      }
      LoopTurns(s, ticks, pool.tickSpacing, state, turn.value, found.value.next.tick, c, count);
      HopKeepsSearching(s, ticks, state, turn.value, found.value.next.tick, ix, pool.tickSpacing);
      c, entered, rest := found.value.at, true, found.value.rest;
      state := turn.value;
      count := count + 1;
    }
    LoopEnds(s, ticks, pool.tickSpacing, state, c, count);
    return Ok(state.calculated);
  }

  /** The queue starts with the swap's first array, and goes on with the one after it. */
  ghost predicate Served(ix: Index, tick: int, spacing: nat, queue: seq<int>, zeroForOne: bool)
    requires 0 < spacing
  {
    var first := FirstInitializedArray(ix, tick, spacing, zeroForOne, true);
    first.Ok? && queue != [] && queue[0] * TickCount(spacing) == first.value.1 && NextQueued(ix, queue[0], queue[1..], zeroForOne)
  }

  lemma SnapshotStarts(s: Setting, table: PriceTable, feeRate: nat, pool: PoolState, ix: Index, ticks: map<int, TickState>,
                       limit: nat, amount: nat)
    requires Snapshot(table, feeRate, pool, ix, ticks) && (limit == 0 || MIN_SQRT_PRICE < limit < MAX_SQRT_PRICE)
    requires s.table == table && s.feeRate == feeRate && s.limit == LimitOrDefault(limit, s.zeroForOne)
    ensures 0 < pool.tickSpacing && Holds(ix, pool.tickSpacing, ticks) && MIN_TICK <= pool.tickCurrent < MAX_TICK && ValidSetting(s)
    ensures QuoteLimitInRange(s.limit, pool.sqrtPrice, s.zeroForOne) ==>
              OnPath(s, Path(amount, 0, pool.sqrtPrice, pool.tickCurrent, pool.liquidity))
  {
    hide Coherent, Represents;
  }

  lemma FirstQueued(ix: Index, spacing: nat, ticks: map<int, TickState>, tick: int, queue: seq<int>, zeroForOne: bool)
    requires Holds(ix, spacing, ticks) && MIN_TICK <= tick <= MAX_TICK && InSwapOrder(ix, queue, zeroForOne) && queue != []
    requires FirstInitializedArray(ix, tick, spacing, zeroForOne, true).Ok? && queue[0] in ix.arrays
    requires ix.arrays[queue[0]].start == FirstInitializedArray(ix, tick, spacing, zeroForOne, true).value.1
    ensures Searching(ix, spacing, ticks, tick, queue[0], FirstInitializedArray(ix, tick, spacing, zeroForOne, true).value.0, zeroForOne)
    ensures Marked(ix, queue[0]) && QueuedBeyond(ix, queue[0], queue[1..], zeroForOne)
  {
    hide Holds, FirstInitializedArray, NoneBefore, AllAheadIn, NothingAheadIn, IsSet;
    StartsInFirstArray(ix, spacing, ticks, tick, zeroForOne, true, queue[0]);
    forall d | d in queue[1..] ensures d != queue[0] && Beyond(queue[0], d, zeroForOne) {
      var i :| 0 <= i < |queue[1..]| && queue[1..][i] == d;
      assert queue[i + 1] == d;
    }
  }

  lemma QueuedExist(ix: Index, spacing: nat, ticks: map<int, TickState>, queue: seq<int>, zeroForOne: bool)
    requires Holds(ix, spacing, ticks) && InSwapOrder(ix, queue, zeroForOne)
    ensures queue != [] ==> queue[0] in ix.arrays && ix.arrays[queue[0]].start == queue[0] * TickCount(spacing)
  {
    hide Holds;
    if queue != [] {
      assert queue[0] in queue;
      StartsDiffer(ix, spacing, ticks, queue[0], queue[0]);
    }
  }

  lemma NearestDiffers(ix: Index, from: int, c: int, zeroForOne: bool)
    ensures NearestMarked(ix, from, c, zeroForOne) ==> c != from
  {
    hide IsSet;
  }

  lemma NoTickNoHop(s: Setting, ticks: map<int, TickState>, p: Path)
    ensures NextTick(ticks, p.tick, s.zeroForOne) == None ==> HopFrom(s, ticks, p).Err?
  {
    hide NextTick, StepOf;
  }

  /** The loop and its count of arrays, one turn on. */
  lemma LoopTurns(s: Setting, ticks: map<int, TickState>, spacing: nat, p: Path, p': Path, next: int, c: int, count: nat)
    requires 0 < spacing && !QuoteDone(s, p) && count <= LOOP_LIMIT && NextTick(ticks, p.tick, s.zeroForOne) == Some(next)
    requires HopFrom(s, ticks, p).Ok? && Advance(s, ticks, p, HopFrom(s, ticks, p).value) == Ok(p')
    ensures QuoteLoop(s, ticks, p, count) == QuoteLoop(s, ticks, p', count + 1)
    ensures var at := ArrayOf(next, spacing);
            ArrayChanges(s, ticks, spacing, p, c, count) == (if at == c then 0 else 1) + ArrayChanges(s, ticks, spacing, p', at, count + 1)
  {
    hide StepOf, ArrayOf, Advance, NextTick;
  }

  lemma LoopErrs(s: Setting, ticks: map<int, TickState>, p: Path, count: nat)
    requires !QuoteDone(s, p)
    ensures QuoteLoop(s, ticks, p, count).Err? <== count > LOOP_LIMIT || HopFrom(s, ticks, p).Err? ||
              Advance(s, ticks, p, HopFrom(s, ticks, p).value).Err?
  {
    hide HopFrom, Advance;
  }

  lemma LoopEnds(s: Setting, ticks: map<int, TickState>, spacing: nat, p: Path, c: int, count: nat)
    requires 0 < spacing && QuoteDone(s, p)
    ensures QuoteLoop(s, ticks, p, count) == Ok(p) && ArrayChanges(s, ticks, spacing, p, c, count) == 0
  {}

  /** A turn that finds nothing ahead in its array changes arrays, or has no hop to take. */
  lemma LeavingCounts(s: Setting, ticks: map<int, TickState>, spacing: nat, p: Path, c: int, count: nat)
    requires 0 < spacing && NothingAheadIn(spacing, ticks, p.tick, c, s.zeroForOne) && !QuoteDone(s, p) && count <= LOOP_LIMIT
    ensures HopFrom(s, ticks, p).Err? || ArrayChanges(s, ticks, spacing, p, c, count) > 0
  {
    hide StepOf, ArrayOf, Advance;
    NextTickIs(ticks, p.tick, s.zeroForOne);
  }

  /** After a turn of the quote tick and price agree, and the search stands in the array of its tick. */
  lemma HopKeepsSearching(s: Setting, ticks: map<int, TickState>, p: Path, p': Path, next: int, ix: Index, spacing: nat)
    requires ValidSetting(s) && OnPath(s, p) && Holds(ix, spacing, ticks)
    requires HopFrom(s, ticks, p).Ok? && Advance(s, ticks, p, HopFrom(s, ticks, p).value) == Ok(p')
    requires NextTick(ticks, p.tick, s.zeroForOne) == Some(next) && Marked(ix, ArrayOf(next, spacing))
    ensures OnPath(s, p')
    ensures !Done(s, p') ==> Searching(ix, spacing, ticks, p'.tick, ArrayOf(next, spacing), true, s.zeroForOne)
  {
    hide Holds, OnPath, ValidSetting, Searching, NextTick, Marked, StepOf, StepGuarantee;
    var hop := HopFrom(s, ticks, p).value;
    HopIsGood(s, ticks, p);
    HopArrivesOrEnds(s, ticks, p, hop, p');
    HopStaysOnPath(s, ticks, p, hop, p');
    if !Done(s, p') { CrossedKeepsSearching(ix, spacing, ticks, p.tick, next, s.zeroForOne); }
  }

  // -----------------------------------------------------------------------------------------
  // Agreement

  lemma SameHop(s: Setting, ticks1: map<int, TickState>, ticks2: map<int, TickState>, p: Path)
    requires SamePath(ticks1, ticks2)
    ensures HopFrom(s, ticks1, p) == HopFrom(s, ticks2, p)
    ensures forall hop :: Advance(s, ticks1, p, hop) == Advance(s, ticks2, p, hop)
  {
    hide StepOf, CrossedLiquidity, TickAfter, NextTick;
    SameNextTick(ticks1, ticks2, p.tick, s.zeroForOne);
  }

  /** Crossing a tick leaves it the same to the path. */
  lemma TurnIsHop(s: Setting, config: AmmConfig, pool: PoolState, st: SwapState, st': SwapState, ticks: map<int, TickState>)
    requires SamePath(st.ticks, ticks) && SwapOnce(s, config, pool, st) == Ok(st')
    ensures HopFrom(s, ticks, st.path) == HopFrom(s, st.ticks, st.path) && HopFrom(s, ticks, st.path).Ok?
    ensures Advance(s, ticks, st.path, HopFrom(s, ticks, st.path).value) == Ok(st'.path)
    ensures SamePath(st'.ticks, ticks)
  {
    hide StepOf, Take, CrossTick, SamePath, NextTick, CrossedLiquidity, TickAtSqrtPrice;
    SameHop(s, st.ticks, ticks, st.path);
    var hop := HopFrom(s, st.ticks, st.path).value;
    if hop.crossed {
      CrossedOnlyGrowth(TickOf(st.ticks, hop.next), pool.growthGlobal[InToken(s.zeroForOne) := st'.taken.growth], pool.rewards);
    }
    SamePathAfter(st.ticks, st'.ticks, ticks, hop.next);
  }

  lemma SamePathAfter(before: map<int, TickState>, after: map<int, TickState>, ticks: map<int, TickState>, next: int)
    requires SamePath(before, ticks) && (after == before || after == before[next := TickOf(after, next)])
    requires TickOf(after, next).liquidityGross == TickOf(before, next).liquidityGross
    requires TickOf(after, next).liquidityNet == TickOf(before, next).liquidityNet
    ensures SamePath(after, ticks)
  {}

  /** The first stop of a route, from stop `n` on, at which the client stops: at an outermost tick, or the last. */
  function QuotedStop(stops: seq<Path>, n: nat): (k: nat)
    requires n < |stops|
    ensures n <= k < |stops|
    decreases |stops| - n
  {
    if n == |stops| - 1 || stops[n].tick <= -443636 || 443636 <= stops[n].tick then n else QuotedStop(stops, n + 1)
  }

  lemma {:induction false} QuotedStopTail(stops: seq<Path>, n: nat)
    requires 0 < n < |stops|
    ensures QuotedStop(stops, n) == 1 + QuotedStop(stops[1..], n - 1)
    decreases |stops| - n
  {
    if n < |stops| - 1 { QuotedStopTail(stops, n + 1); }
  }

  /** Where the swap's loop succeeds, the client's loop goes along with it up to that stop, if its turns suffice. */
  lemma {:induction false} QuoteFollowsSwap(s: Setting, config: AmmConfig, pool: PoolState, st: SwapState, end: SwapState,
                                            ticks: map<int, TickState>, count: nat)
    requires ValidSetting(s) && OnPath(s, st.path) && SamePath(st.ticks, ticks) && count <= 11
    requires SwapLoop(s, config, pool, st) == Ok(end)
    ensures var stops := StopsOf(s, config, pool, st);
            var k := QuotedStop(stops, 0);
            QuoteLoop(s, ticks, st.path, count) == if count + k <= 11 then Ok(stops[k]) else Err(RequireViolated)
    decreases Distance(s, st.path)
  {
    hide OnPath, ValidSetting, SwapOnce, Distance, HopFrom, Advance, SamePath;
    var stops := StopsOf(s, config, pool, st);
    if !QuoteDone(s, st.path) {
      var st' := SwapOnce(s, config, pool, st).value;
      SwapOnceProgresses(s, config, pool, st, st');
      TurnIsHop(s, config, pool, st, st', ticks);
      assert stops[1..] == StopsOf(s, config, pool, st');
      QuotedStopTail(stops, 1);
      if count < 11 { QuoteFollowsSwap(s, config, pool, st', end, ticks, count + 1); }
    }
  }

  /** The quote on the state a successful swap met: the other token's amount at the stop where the client stops, and
      an error exactly if it takes more than eleven turns to get there. */
  lemma QuoteIsStop(l: Ledger, amount: nat, threshold: nat, limit: nat, zeroForOne: bool, baseInput: bool, l': Ledger)
    returns (stops: seq<Path>, legs: seq<Leg>)
    requires PriceInv(l) && ConfigInv(l.config) && Swap(l, amount, threshold, limit, zeroForOne, baseInput) == Ok(l')
    ensures SwapDoes(l, amount, threshold, limit, zeroForOne, baseInput, l', stops, legs) && |stops| == |legs| + 1
    ensures var k := QuotedStop(stops, 0);
            QuoteOf(l.table, l.config.tradeFeeRate, l.pool, l.ticks, amount, limit, zeroForOne, baseInput)
              == if k <= 11 then Ok(stops[k].calculated) else Err(RequireViolated)
    ensures stops == SwapStops(l, amount, limit, zeroForOne, baseInput)
  {
    hide SwapLoop, UpdateRewardInfos, PriceInv, ConfigInv, QuoteLoop, SwapDoes, StopsOf, Settle, QuotedStop;
    stops, legs := SwapIsRoute(l, amount, threshold, limit, zeroForOne, baseInput, l');
    var s := Setting(l.table, l.config.tradeFeeRate, LimitOrDefault(limit, zeroForOne), baseInput, zeroForOne);
    var pool := UpdateRewardInfos(l.pool, l.now % U32_LIMIT).value;
    StartsOnPath(s, l, pool, amount);
    RewardsKeepPrice(l.pool, l.now % U32_LIMIT);
    var st := Start(pool, l.ticks, amount, zeroForOne);
    assert SamePath(l.ticks, l.ticks) by { SameToItself(l.ticks); }
    QuoteFollowsSwap(s, l.config, pool, st, SwapLoop(s, l.config, pool, st).value, l.ticks, 0);
  }

  /** A route's ticks lie between its first and its last. */
  lemma {:induction false} StopsBetween(s: Setting, config: AmmConfig, pool: PoolState, st: SwapState, end: SwapState)
    requires ValidSetting(s) && OnPath(s, st.path) && SwapLoop(s, config, pool, st) == Ok(end)
    ensures var stops := StopsOf(s, config, pool, st);
            stops[|stops| - 1] == end.path &&
            forall k :: 0 <= k < |stops| ==>
              if s.zeroForOne then end.path.tick <= stops[k].tick <= st.path.tick else st.path.tick <= stops[k].tick <= end.path.tick
    decreases Distance(s, st.path)
  {
    hide OnPath, ValidSetting, SwapOnce, Distance;
    if !Done(s, st.path) {
      var st' := SwapOnce(s, config, pool, st).value;
      SwapOnceProgresses(s, config, pool, st, st');
      StopsBetween(s, config, pool, st', end);
      TurnMovesOneWay(s, config, pool, st, st');
      var rest := StopsOf(s, config, pool, st');
      var stops := StopsOf(s, config, pool, st);
      assert stops == [st.path] + rest;
      assert rest[0] == st'.path;
      forall k | 0 <= k < |stops|
        ensures if s.zeroForOne then end.path.tick <= stops[k].tick <= st.path.tick else st.path.tick <= stops[k].tick <= end.path.tick
      {
        if k > 0 { assert stops[k] == rest[k - 1]; } else { assert rest[0] == st'.path; }
      }
    }
  }

  lemma TurnMovesOneWay(s: Setting, config: AmmConfig, pool: PoolState, st: SwapState, st': SwapState)
    requires ValidSetting(s) && OnPath(s, st.path) && SwapOnce(s, config, pool, st) == Ok(st')
    ensures if s.zeroForOne then st'.path.tick <= st.path.tick else st.path.tick <= st'.path.tick
  {
    hide HopFrom, Advance, Take, GoodHop, ValidSetting;
    var hop := HopFrom(s, st.ticks, st.path).value;
    HopIsGood(s, st.ticks, st.path);
    HopStaysOnPath(s, st.ticks, st.path, hop, st'.path);
  }

  /** A quote on a route between the outermost ticks, of eleven turns at most, is what the swap pays out, or asks
      for: to the unit, the change of the other token's vault. With more turns the client errs. */
  lemma QuoteIsPaid(l: Ledger, amount: nat, threshold: nat, limit: nat, zeroForOne: bool, baseInput: bool, l': Ledger)
    returns (stops: seq<Path>, legs: seq<Leg>)
    requires PriceInv(l) && ConfigInv(l.config) && Swap(l, amount, threshold, limit, zeroForOne, baseInput) == Ok(l')
    requires -443636 < l.pool.tickCurrent < 443636 && -443636 < l'.pool.tickCurrent < 443636
    ensures SwapDoes(l, amount, threshold, limit, zeroForOne, baseInput, l', stops, legs)
    ensures QuoteOf(l.table, l.config.tradeFeeRate, l.pool, l.ticks, amount, limit, zeroForOne, baseInput)
         == if |legs| > 11 then Err(RequireViolated)
            else Ok(if baseInput then (if zeroForOne then l.vaults[1] - l'.vaults[1] else l.vaults[0] - l'.vaults[0])
                    else (if zeroForOne then l'.vaults[0] - l.vaults[0] else l'.vaults[1] - l.vaults[1]))
  {
    hide Swap, PriceInv, ConfigInv, QuoteOf, QuotedStop, Route, SwapStops, MaySwap, RewardsUpdated, FeesTaken, SamePath;
    stops, legs := QuoteIsStop(l, amount, threshold, limit, zeroForOne, baseInput, l');
    TicksStayInside(l, amount, threshold, limit, zeroForOne, baseInput, l', stops);
    NoStopBefore(stops, 0);
  }

  lemma {:induction false} NoStopBefore(stops: seq<Path>, n: nat)
    requires n < |stops| && forall k :: 0 <= k < |stops| ==> -443636 < stops[k].tick < 443636
    ensures QuotedStop(stops, n) == |stops| - 1
    decreases |stops| - n
  {
    if n < |stops| - 1 { NoStopBefore(stops, n + 1); }
  }

  lemma TicksStayInside(l: Ledger, amount: nat, threshold: nat, limit: nat, zeroForOne: bool, baseInput: bool, l': Ledger, stops: seq<Path>)
    requires PriceInv(l) && ConfigInv(l.config) && Swap(l, amount, threshold, limit, zeroForOne, baseInput) == Ok(l')
    requires stops == SwapStops(l, amount, limit, zeroForOne, baseInput)
    requires -443636 < l.pool.tickCurrent < 443636 && -443636 < l'.pool.tickCurrent < 443636
    ensures forall k :: 0 <= k < |stops| ==> -443636 < stops[k].tick < 443636
  {
    hide SwapLoop, UpdateRewardInfos, PriceInv, ConfigInv, StopsOf, OnPath, ValidSetting;
    var s := Setting(l.table, l.config.tradeFeeRate, LimitOrDefault(limit, zeroForOne), baseInput, zeroForOne);
    var pool := UpdateRewardInfos(l.pool, l.now % U32_LIMIT).value;
    StartsOnPath(s, l, pool, amount);
    RewardsKeepPrice(l.pool, l.now % U32_LIMIT);
    var st := Start(pool, l.ticks, amount, zeroForOne);
    StopsBetween(s, l.config, pool, st, SwapLoop(s, l.config, pool, st).value);
  }
}
