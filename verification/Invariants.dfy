/** What holds of a pool after every instruction. */
module Invariants {
  import opened Wrappers
  import opened FullMath
  import opened PoolTypes
  import opened TickGrowth
  import opened Ledger
  import opened Sums
  import SwapMath

  // -----------------------------------------------------------------------------------------
  // Liquidity

  /** Which share of a range's liquidity is counted: all of it while the current tick is inside,
      once per end at a tick, or as added at the lower and removed at the upper end. */
  datatype Count = Active(tickCurrent: int) | Gross(tick: int) | Net(tick: int)

  function Counted(w: Count, p: ProtocolPosition): int {
    var x: int := p.liquidity;
    match w
    case Active(t) => if p.tickLower <= t < p.tickUpper then x else 0
    case Gross(t) => (if p.tickLower == t then x else 0) + (if p.tickUpper == t then x else 0)
    case Net(t) => (if p.tickLower == t then x else 0) - (if p.tickUpper == t then x else 0)
  }

  ghost function Terms(protocols: seq<ProtocolPosition>, w: Count): (r: seq<int>)
    ensures |r| == |protocols|
    ensures forall j :: 0 <= j < |r| ==> r[j] == Counted(w, protocols[j])
  {
    seq(|protocols|, j requires 0 <= j < |protocols| => Counted(w, protocols[j]))
  }

  ghost function Total(protocols: seq<ProtocolPosition>, w: Count): int {
    Sum(Terms(protocols, w))
  }

  ghost function Owners(personals: seq<PersonalPosition>): (r: seq<int>)
    ensures |r| == |personals| && forall i :: 0 <= i < |r| ==> r[i] == personals[i].protocol
  {
    seq(|personals|, i requires 0 <= i < |personals| => personals[i].protocol)
  }

  ghost function Shares(personals: seq<PersonalPosition>): (r: seq<int>)
    ensures |r| == |personals| && forall i :: 0 <= i < |r| ==> r[i] == personals[i].liquidity
  {
    seq(|personals|, i requires 0 <= i < |personals| => personals[i].liquidity)
  }

  /** Liquidity the personal positions of one range add up to. */
  ghost function Held(personals: seq<PersonalPosition>, j: int): int {
    Group(Owners(personals), Shares(personals), j)
  }

  ghost predicate ValidRanges(l: Ledger) {
    && (forall j :: 0 <= j < |l.protocols| ==>
          MIN_TICK <= l.protocols[j].tickLower < l.protocols[j].tickUpper <= MAX_TICK)
    && (forall i :: 0 <= i < |l.personals| ==> l.personals[i].protocol < |l.protocols|)
  }

  /** Every liquidity figure is the sum it stands for. */
  ghost predicate LiquidityInv(l: Ledger) {
    && l.pool.liquidity == Total(l.protocols, Active(l.pool.tickCurrent))
    && (forall t {:trigger Total(l.protocols, Gross(t))} ::
          TickOf(l.ticks, t).liquidityGross == Total(l.protocols, Gross(t)))
    && (forall t {:trigger Total(l.protocols, Net(t))} ::
          TickOf(l.ticks, t).liquidityNet == Total(l.protocols, Net(t)))
  }

  /** Owners hold no more than their range. */
  ghost predicate HoldingsInv(l: Ledger) {
    forall j :: 0 <= j < |l.protocols| ==> Held(l.personals, j) <= l.protocols[j].liquidity
  }

  /** A slot carries its own index, or zero before its first use. */
  ghost predicate NamedSlots(l: Ledger) {
    forall t :: var s := TickOf(l.ticks, t); (s.tick == t || s.tick == 0) && (s.IsInitialized() ==> s.tick == t)
  }

  // -----------------------------------------------------------------------------------------
  // Growth

  ghost predicate GrowthInv(l: Ledger) {
    && (forall c :: 0 <= c < 5 ==> l.pool.growthGlobal[c] < U128_LIMIT)
    && (forall c :: 0 <= c < 5 && !Live(l.pool.rewards, c) ==> l.pool.growthGlobal[c] == 0)
    && (forall t, c :: 0 <= c < 5 ==> TickOf(l.ticks, t).growthOutside[c] <= l.pool.growthGlobal[c])
  }

  /** Growth of channel `c` inside the range of `p`. */
  ghost function RangeGrowth(l: Ledger, p: ProtocolPosition, c: int): int
    requires 0 <= c < 5
  {
    RawInside(l.pool.growthGlobal[c], TickOf(l.ticks, p.tickLower).growthOutside[c],
              TickOf(l.ticks, p.tickUpper).growthOutside[c], l.pool.tickCurrent, p.tickLower, p.tickUpper)
  }

  /** What position `p` earned in channel `c` per unit of liquidity and has not been credited with. */
  ghost function Uncredited(l: Ledger, p: PersonalPosition, c: int): nat
    requires 0 <= c < 5 && p.protocol < |l.protocols|
  {
    Accrued(RangeGrowth(l, l.protocols[p.protocol], c), p.growthInside[c])
  }

  ghost predicate AccrualInv(l: Ledger)
    requires ValidRanges(l)
  {
    forall i, c :: 0 <= i < |l.personals| && 0 <= c < 5 && l.personals[i].liquidity > 0 ==>
      Uncredited(l, l.personals[i], c) <= l.pool.growthGlobal[c]
  }

  /** The claim of one position on a channel's takings, in units of 2^-64. */
  ghost function ClaimOf(l: Ledger, p: PersonalPosition, c: int): int
    requires 0 <= c < 5 && p.protocol < |l.protocols|
  {
    Q64 * p.owed[c] + (if p.liquidity > 0 then p.liquidity * Uncredited(l, p, c) else 0)
  }

  ghost function Claims(l: Ledger, c: int): (r: seq<int>)
    requires 0 <= c < 5 && ValidRanges(l)
    ensures |r| == |l.personals|
    ensures forall i :: 0 <= i < |r| ==> r[i] == ClaimOf(l, l.personals[i], c)
  {
    seq(|l.personals|, i requires 0 <= i < |l.personals| => ClaimOf(l, l.personals[i], c))
  }

  /** All claims together are covered by what came in and was not paid out. */
  function Unclaimed(pool: PoolState, c: int): int
    requires 0 <= c < 5
  {
    var total: int := pool.total[c];
    total - pool.claimed[c]
  }

  ghost predicate ChannelSolvent(l: Ledger, c: int)
    requires 0 <= c < 5 && ValidRanges(l)
  {
    Sum(Claims(l, c)) <= Q64 * Unclaimed(l.pool, c)
  }

  ghost predicate ClaimsCovered(l: Ledger)
    requires ValidRanges(l)
  {
    forall c :: 0 <= c < 5 ==> ChannelSolvent(l, c)
  }

  /** Takings are u64 figures, so claims recorded against them cannot overflow. */
  ghost predicate TotalsFit(pool: PoolState) {
    forall c :: 0 <= c < 5 ==> pool.total[c] < U64_LIMIT
  }

  // -----------------------------------------------------------------------------------------
  // Price

  ghost predicate PriceInv(l: Ledger) {
    && ValidTable(l.table)
    && MIN_TICK <= l.pool.tickCurrent < MAX_TICK
    && Price(l.table, l.pool.tickCurrent) <= l.pool.sqrtPrice <= Price(l.table, l.pool.tickCurrent + 1)
  }

  ghost predicate ConfigInv(config: AmmConfig) {
    && config.tradeFeeRate < SwapMath.FEE_RATE_DENOMINATOR
    && config.protocolFeeRate + config.fundFeeRate <= SwapMath.FEE_RATE_DENOMINATOR
  }

  lemma PriceIsMonotone(table: PriceTable, t: int, u: int)
    requires ValidTable(table) && MIN_TICK <= t <= MAX_TICK && MIN_TICK <= u <= MAX_TICK
    ensures t < u <==> Price(table, t) < Price(table, u)
    ensures t == u <==> Price(table, t) == Price(table, u)
    ensures MIN_SQRT_PRICE <= Price(table, t) <= MAX_SQRT_PRICE
  {
    var i, j := t - MIN_TICK, u - MIN_TICK;
    assert t < u ==> table[i] < table[j];
    assert u < t ==> table[j] < table[i];
    assert 0 < i ==> table[0] < table[i];
    assert i < |table| - 1 ==> table[i] < table[|table| - 1];
  }
}
