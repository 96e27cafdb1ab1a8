/** The price path of a swap: from initialized tick to initialized tick, one step at a time. The
    program (programs/amm/src/instructions/swap.rs) and the client's quote
    (client/src/instructions/utils.rs) both walk it. */
module SwapPath {
  import opened Wrappers
  import opened FullMath
  import opened LiquidityMath
  import opened PoolTypes
  import opened TickGrowth
  import opened Invariants
  import opened SwapMath
  import opened SwapValue

  // -----------------------------------------------------------------------------------------
  // Nearest initialized tick, and the tick of a price

  function NextDown(ticks: map<int, TickState>, t: int): Option<int>
    decreases if t >= MIN_TICK then t - MIN_TICK + 1 else 0
  {
    if t < MIN_TICK then None
    else if TickOf(ticks, t).IsInitialized() then Some(t)
    else NextDown(ticks, t - 1)
  }

  function NextUp(ticks: map<int, TickState>, t: int): Option<int>
    decreases if t <= MAX_TICK then MAX_TICK - t + 1 else 0
  {
    if t > MAX_TICK then None
    else if TickOf(ticks, t).IsInitialized() then Some(t)
    else NextUp(ticks, t + 1)
  }

  /** The initialized tick a swap meets first: at or below `tick` going down, above it going up. */
  function NextTick(ticks: map<int, TickState>, tick: int, zeroForOne: bool): Option<int> {
    if zeroForOne then NextDown(ticks, tick) else NextUp(ticks, tick + 1)
  }

  predicate Ahead(tick: int, u: int, zeroForOne: bool) {
    if zeroForOne then u <= tick else tick < u
  }

  lemma {:induction false} NextDownIs(ticks: map<int, TickState>, t: int)
    ensures var r := NextDown(ticks, t);
            (r.Some? ==> MIN_TICK <= r.value <= t && TickOf(ticks, r.value).IsInitialized()) &&
            forall u :: MIN_TICK <= u <= t && TickOf(ticks, u).IsInitialized() ==> r.Some? && u <= r.value
    decreases if t >= MIN_TICK then t - MIN_TICK + 1 else 0
  {
    if t >= MIN_TICK && !TickOf(ticks, t).IsInitialized() { NextDownIs(ticks, t - 1); }
  }

  lemma {:induction false} NextUpIs(ticks: map<int, TickState>, t: int)
    ensures var r := NextUp(ticks, t);
            (r.Some? ==> t <= r.value <= MAX_TICK && TickOf(ticks, r.value).IsInitialized()) &&
            forall u :: t <= u <= MAX_TICK && TickOf(ticks, u).IsInitialized() ==> r.Some? && r.value <= u
    decreases if t <= MAX_TICK then MAX_TICK - t + 1 else 0
  {
    if t <= MAX_TICK && !TickOf(ticks, t).IsInitialized() { NextUpIs(ticks, t + 1); }
  }

  /** No initialized tick is skipped: the one found is the nearest. */
  lemma NextTickIs(ticks: map<int, TickState>, tick: int, zeroForOne: bool)
    ensures var r := NextTick(ticks, tick, zeroForOne);
            (r.Some? ==> Ahead(tick, r.value, zeroForOne) && TickOf(ticks, r.value).IsInitialized() &&
                         if zeroForOne then MIN_TICK <= r.value else r.value <= MAX_TICK) &&
            forall u :: MIN_TICK <= u <= MAX_TICK && TickOf(ticks, u).IsInitialized() && Ahead(tick, u, zeroForOne) ==>
              r.Some? && if zeroForOne then u <= r.value else r.value <= u
  {
    NextDownIs(ticks, tick);
    NextUpIs(ticks, tick + 1);
  }

  /** Ticks that look the same to the price path, whatever growth they record. */
  ghost predicate SamePath(ticks1: map<int, TickState>, ticks2: map<int, TickState>) {
    forall t :: TickOf(ticks1, t).liquidityGross == TickOf(ticks2, t).liquidityGross
             && TickOf(ticks1, t).liquidityNet == TickOf(ticks2, t).liquidityNet
  }

  lemma {:induction false} SameNextDown(ticks1: map<int, TickState>, ticks2: map<int, TickState>, t: int)
    requires SamePath(ticks1, ticks2)
    ensures NextDown(ticks1, t) == NextDown(ticks2, t)
    decreases if t >= MIN_TICK then t - MIN_TICK + 1 else 0
  {
    if t >= MIN_TICK { SameNextDown(ticks1, ticks2, t - 1); }
  }

  lemma {:induction false} SameNextUp(ticks1: map<int, TickState>, ticks2: map<int, TickState>, t: int)
    requires SamePath(ticks1, ticks2)
    ensures NextUp(ticks1, t) == NextUp(ticks2, t)
    decreases if t <= MAX_TICK then MAX_TICK - t + 1 else 0
  {
    if t <= MAX_TICK { SameNextUp(ticks1, ticks2, t + 1); }
  }

  lemma SameNextTick(ticks1: map<int, TickState>, ticks2: map<int, TickState>, tick: int, zeroForOne: bool)
    requires SamePath(ticks1, ticks2)
    ensures NextTick(ticks1, tick, zeroForOne) == NextTick(ticks2, tick, zeroForOne)
  {
    SameNextDown(ticks1, ticks2, tick);
    SameNextUp(ticks1, ticks2, tick + 1);
  }

  /** The greatest tick from `t` down whose price is at most `sqrtPrice`. */
  function FloorTick(table: PriceTable, sqrtPrice: nat, t: int): int
    requires |table| == MAX_TICK - MIN_TICK + 1 && MIN_TICK <= t <= MAX_TICK
    decreases t - MIN_TICK
  {
    if t == MIN_TICK || Price(table, t) <= sqrtPrice then t else FloorTick(table, sqrtPrice, t - 1)
  }

  /** `get_tick_at_sqrt_price`, as documented */
  function TickAtSqrtPrice(table: PriceTable, sqrtPrice: nat): Result<int> {
    if !(MIN_SQRT_PRICE <= sqrtPrice < MAX_SQRT_PRICE) then Err(SqrtPriceX64)
    else if |table| != MAX_TICK - MIN_TICK + 1 then Err(TickOverflow)
    else Ok(FloorTick(table, sqrtPrice, MAX_TICK))
  }

  lemma {:induction false} FloorTickIs(table: PriceTable, sqrtPrice: nat, t: int)
    requires |table| == MAX_TICK - MIN_TICK + 1 && MIN_TICK <= t <= MAX_TICK && Price(table, MIN_TICK) <= sqrtPrice
    ensures var r := FloorTick(table, sqrtPrice, t);
            MIN_TICK <= r <= t && Price(table, r) <= sqrtPrice && (r < t ==> sqrtPrice < Price(table, r + 1))
    decreases t - MIN_TICK
  {
    if t > MIN_TICK && Price(table, t) > sqrtPrice { FloorTickIs(table, sqrtPrice, t - 1); }
  }

  lemma TickAtSqrtPriceIs(table: PriceTable, sqrtPrice: nat)
    requires ValidTable(table)
    ensures TickAtSqrtPrice(table, sqrtPrice).Ok? <==> MIN_SQRT_PRICE <= sqrtPrice < MAX_SQRT_PRICE
    ensures TickAtSqrtPrice(table, sqrtPrice).Ok? ==>
              var t := TickAtSqrtPrice(table, sqrtPrice).value;
              MIN_TICK <= t < MAX_TICK && Price(table, t) <= sqrtPrice < Price(table, t + 1)
  {
    if MIN_SQRT_PRICE <= sqrtPrice < MAX_SQRT_PRICE { FloorTickIs(table, sqrtPrice, MAX_TICK); }
  }

  /** It is the only tick whose price and the next one's bracket the given price. */
  lemma TickOfPrice(table: PriceTable, sqrtPrice: nat, tick: int)
    requires ValidTable(table) && MIN_TICK <= tick < MAX_TICK && Price(table, tick) <= sqrtPrice < Price(table, tick + 1)
    ensures TickAtSqrtPrice(table, sqrtPrice) == Ok(tick)
  {
    hide TickAtSqrtPrice, ValidTable;
    PriceIsMonotone(table, tick, tick);
    PriceIsMonotone(table, tick + 1, tick + 1);
    TickAtSqrtPriceIs(table, sqrtPrice);
    var t := TickAtSqrtPrice(table, sqrtPrice).value;
    if t < tick { PriceIsMonotone(table, t + 1, tick); }
    if tick < t { PriceIsMonotone(table, tick + 1, t); }
  }

  // -----------------------------------------------------------------------------------------
  // One hop

  /** What stays fixed during a swap. */
  datatype Setting = Setting(table: PriceTable, feeRate: nat, limit: nat, baseInput: bool, zeroForOne: bool)

  /** The part of `SwapState` that program and quote share. */
  datatype Path = Path(remaining: nat, calculated: nat, sqrtPrice: nat, tick: int, liquidity: nat)

  /** The step towards the next initialized tick `next`; `crossed` when the price arrived there. */
  datatype Hop = Hop(next: int, priceNext: nat, target: nat, step: SwapStep, crossed: bool)

  predicate Done(s: Setting, p: Path) {
    p.remaining == 0 || p.sqrtPrice == s.limit
  }

  /** The next tick's price, or the limit if that comes first. */
  function Target(s: Setting, priceNext: nat): nat {
    if (s.zeroForOne && priceNext < s.limit) || (!s.zeroForOne && priceNext > s.limit) then s.limit else priceNext
  }

  function HopFrom(s: Setting, ticks: map<int, TickState>, p: Path): Result<Hop> {
    match NextTick(ticks, p.tick, s.zeroForOne)
    case None => Err(LiquidityInsufficient)
    case Some(next) =>
      var priceNext :- PriceAt(s.table, next);
      var target := Target(s, priceNext);
      var step :- StepOf(p.sqrtPrice, target, p.liquidity, p.remaining, s.feeRate, s.baseInput, s.zeroForOne);
      Ok(Hop(next, priceNext, target, step, step.sqrtPriceNext == priceNext))
  }

  /** The order the program insists on before it takes the step. */
  predicate InOrder(s: Setting, p: Path, hop: Hop) {
    if s.zeroForOne then p.tick >= hop.next && p.sqrtPrice >= hop.priceNext && p.sqrtPrice >= hop.target
    else hop.next > p.tick && hop.priceNext >= p.sqrtPrice && hop.target >= p.sqrtPrice
  }

  /** Liquidity after crossing a tick, whose net is removed going down and added going up. */
  function CrossedLiquidity(liquidity: nat, net: int, zeroForOne: bool): Result<nat> {
    var signed :- if zeroForOne then CheckedI128(-net) else Ok(net);
    AddDelta(liquidity, signed)
  }

  function TickAfter(s: Setting, p: Path, hop: Hop): Result<int> {
    if hop.crossed then Ok(if s.zeroForOne then hop.next - 1 else hop.next)
    else if hop.step.sqrtPriceNext != p.sqrtPrice then TickAtSqrtPrice(s.table, hop.step.sqrtPriceNext)
    else Ok(p.tick)
  }

  function Advance(s: Setting, ticks: map<int, TickState>, p: Path, hop: Hop): Result<Path> {
    var input :- Narrow(hop.step.amountIn + hop.step.feeAmount, U64_LIMIT);
    var remaining :- CheckedSub(p.remaining, if s.baseInput then input else hop.step.amountOut);
    var calculated :- Narrow(p.calculated + (if s.baseInput then hop.step.amountOut else input), U64_LIMIT);
    var liquidity :- if hop.crossed then CrossedLiquidity(p.liquidity, TickOf(ticks, hop.next).liquidityNet, s.zeroForOne)
                     else Ok(p.liquidity);
    var tick :- TickAfter(s, p, hop);
    Ok(Path(remaining, calculated, hop.step.sqrtPriceNext, tick, liquidity))
  }

  // -----------------------------------------------------------------------------------------
  // What every hop keeps

  predicate ValidSetting(s: Setting) {
    && s.feeRate < FEE_RATE_DENOMINATOR
    && MIN_SQRT_PRICE < s.limit < MAX_SQRT_PRICE
  }

  /** Tick and price agree, and the limit is not passed. */
  ghost predicate OnPath(s: Setting, p: Path) {
    && ValidTable(s.table)
    && MIN_TICK <= p.tick < MAX_TICK
    && Price(s.table, p.tick) <= p.sqrtPrice <= Price(s.table, p.tick + 1)
    && (if s.zeroForOne then s.limit <= p.sqrtPrice else p.sqrtPrice <= s.limit)
  }

  /** What a hop from `p` does: it heads for the nearest initialized tick ahead and stops between
      here and there, at the limit at the latest. */
  ghost predicate GoodHop(s: Setting, ticks: map<int, TickState>, p: Path, hop: Hop)
    requires ValidTable(s.table) && s.feeRate < FEE_RATE_DENOMINATOR
  {
    && MIN_TICK <= hop.next <= MAX_TICK
    && NextTick(ticks, p.tick, s.zeroForOne) == Some(hop.next)
    && hop.priceNext == Price(s.table, hop.next)
    && hop.target == Target(s, hop.priceNext)
    && Towards(p.sqrtPrice, hop.target, s.zeroForOne)
    && InOrder(s, p, hop)
    && StepGuarantee(hop.step, p.sqrtPrice, hop.target, p.liquidity, p.remaining, s.feeRate, s.baseInput, s.zeroForOne)
    && (hop.crossed <==> hop.step.sqrtPriceNext == hop.priceNext)
  }

  /** The order checks of the program always pass, and a hop fails only for an overflow or for want
      of an initialized tick. */
  lemma HopIsGood(s: Setting, ticks: map<int, TickState>, p: Path)
    requires ValidSetting(s) && OnPath(s, p)
    ensures var r := HopFrom(s, ticks, p);
            (r.Err? ==> r.error == Overflow || (r.error == LiquidityInsufficient && NextTick(ticks, p.tick, s.zeroForOne) == None)) &&
            (r.Ok? ==> GoodHop(s, ticks, p, r.value))
  {
    hide StepOf, StepGuarantee, NextTick;
    NextTickIs(ticks, p.tick, s.zeroForOne);
    match NextTick(ticks, p.tick, s.zeroForOne)
    case None =>
    case Some(next) =>
      PriceIsMonotone(s.table, p.tick, p.tick);
      PriceIsMonotone(s.table, p.tick, next);
      PriceIsMonotone(s.table, p.tick + 1, next);
      var target := Target(s, Price(s.table, next));
      StepIsExact(p.sqrtPrice, target, p.liquidity, p.remaining, s.feeRate, s.baseInput, s.zeroForOne);
  }

  /** A hop that does not arrive at its tick ends the swap. */
  lemma HopArrivesOrEnds(s: Setting, ticks: map<int, TickState>, p: Path, hop: Hop, p': Path)
    requires ValidSetting(s) && OnPath(s, p) && GoodHop(s, ticks, p, hop) && Advance(s, ticks, p, hop) == Ok(p')
    ensures hop.crossed || Done(s, p')
    ensures p'.sqrtPrice == hop.step.sqrtPriceNext
    ensures if s.zeroForOne then hop.target <= p'.sqrtPrice <= p.sqrtPrice else p.sqrtPrice <= p'.sqrtPrice <= hop.target
  {
    hide CostsExactly, Delivers;
  }

  /** The tick after a hop to price `x` on the way to tick `next` brackets the price again. */
  lemma TickFollowsPrice(table: PriceTable, zeroForOne: bool, tick: int, price: nat, next: int, x: nat, tick': int)
    requires ValidTable(table) && MIN_TICK <= tick < MAX_TICK && MIN_TICK <= next <= MAX_TICK
    requires Price(table, tick) <= price <= Price(table, tick + 1)
    requires if zeroForOne then next <= tick else tick < next
    requires if zeroForOne then Price(table, next) <= x <= price else price <= x <= Price(table, next)
    requires if x == Price(table, next) then MIN_TICK < next < MAX_TICK && tick' == (if zeroForOne then next - 1 else next)
             else if x != price then TickAtSqrtPrice(table, x) == Ok(tick')
             else tick' == tick
    ensures MIN_TICK <= tick' < MAX_TICK && Price(table, tick') <= x <= Price(table, tick' + 1)
    ensures if zeroForOne then tick' <= tick && (x == Price(table, next) ==> tick' < tick)
            else tick <= tick' && (x == Price(table, next) ==> tick < tick')
    ensures x != Price(table, next) ==> if zeroForOne then next <= tick' else tick' < next
  {
    hide TickAtSqrtPrice;
    TickAtSqrtPriceIs(table, x);
    PriceIsMonotone(table, tick, next);
    if x == Price(table, next) {
      if zeroForOne { PriceIsMonotone(table, next - 1, next); } else { PriceIsMonotone(table, next, next + 1); }
    } else if x != price {
      PriceIsMonotone(table, tick', tick + 1);
      PriceIsMonotone(table, tick' + 1, tick);
      PriceIsMonotone(table, tick' + 1, next);
      PriceIsMonotone(table, tick', next);
    }
  }

  /** Tick and price still agree afterwards. */
  lemma HopStaysOnPath(s: Setting, ticks: map<int, TickState>, p: Path, hop: Hop, p': Path)
    requires ValidSetting(s) && OnPath(s, p) && GoodHop(s, ticks, p, hop) && Advance(s, ticks, p, hop) == Ok(p')
    ensures OnPath(s, p')
    ensures if s.zeroForOne then p'.tick <= p.tick && (hop.crossed ==> p'.tick < p.tick)
            else p.tick <= p'.tick && (hop.crossed ==> p.tick < p'.tick)
    ensures !hop.crossed ==> if s.zeroForOne then hop.next <= p'.tick else p'.tick < hop.next
  {
    hide StepGuarantee, NextTick, CrossedLiquidity, TickAtSqrtPrice;
    NextTickIs(ticks, p.tick, s.zeroForOne);
    HopArrivesOrEnds(s, ticks, p, hop, p');
    PriceIsMonotone(s.table, MIN_TICK, hop.next);
    PriceIsMonotone(s.table, MAX_TICK, hop.next);
    TickFollowsPrice(s.table, s.zeroForOne, p.tick, p.sqrtPrice, hop.next, p'.sqrtPrice, p'.tick);
  }
}
