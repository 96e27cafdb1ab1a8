/** `swap_internal` and `exact_internal` (programs/amm/src/instructions/swap.rs) on a ledger: walk
    the price path, take the fees, cross the ticks, write back and move the tokens. */
module SwapLedger {
  import opened Wrappers
  import opened FullMath
  import opened PoolTypes
  import opened TickGrowth
  import opened Ledger
  import opened Invariants
  import opened SwapMath
  import opened SwapPath
  import PositionLemmas

  /** The fee part of `SwapState`: growth of the input token, and the three shares taken so far. */
  datatype Takings = Takings(growth: nat, lpFee: nat, protocolFee: nat, fundFee: nat)

  datatype SwapState = SwapState(path: Path, taken: Takings, ticks: map<int, TickState>)

  function ShareOf(fee: nat, rate: nat): nat {
    if rate > 0 then FloorDiv(fee * rate, FEE_RATE_DENOMINATOR) else 0
  }

  /** A tally is only touched when its fee is on. */
  function AddShare(tally: nat, share: nat, rate: nat): Result<nat> {
    if rate > 0 then Narrow(tally + share, U64_LIMIT) else Ok(tally)
  }

  /** Split a step's fee: protocol and fund shares first, the rest to the liquidity in range. */
  function Take(config: AmmConfig, t: Takings, liquidity: nat, fee: nat): Result<Takings> {
    var forProtocol := ShareOf(fee, config.protocolFeeRate);
    var rest :- CheckedSub(fee, forProtocol);
    var protocolFee :- AddShare(t.protocolFee, forProtocol, config.protocolFeeRate);
    var forFund := ShareOf(fee, config.fundFeeRate);
    var forLiquidity :- CheckedSub(rest, forFund);
    var fundFee :- AddShare(t.fundFee, forFund, config.fundFeeRate);
    if liquidity == 0 then Ok(t.(protocolFee := protocolFee, fundFee := fundFee))
    else
      var delta :- MulDivFloor128(forLiquidity, Q64, liquidity);
      var growth :- Narrow(t.growth + delta, U128_LIMIT);
      var lpFee :- Narrow(t.lpFee + forLiquidity, U64_LIMIT);
      Ok(Takings(growth, lpFee, protocolFee, fundFee))
  }

  function InToken(zeroForOne: bool): (c: int)
    ensures 0 <= c < 2
  {
    if zeroForOne then 0 else 1
  }

  /** One turn of the loop. `pool` has its rewards brought up to date. */
  function SwapOnce(s: Setting, config: AmmConfig, pool: PoolState, st: SwapState): Result<SwapState> {
    var hop :- HopFrom(s, st.ticks, st.path);
    var _ :- Require(InOrder(s, st.path, hop), RequireViolated);
    var path :- Advance(s, st.ticks, st.path, hop);
    var taken :- Take(config, st.taken, st.path.liquidity, hop.step.feeAmount);
    if hop.crossed then
      var crossed :- CrossTick(TickOf(st.ticks, hop.next), pool.growthGlobal[InToken(s.zeroForOne) := taken.growth], pool.rewards);
      Ok(SwapState(path, taken, st.ticks[hop.next := crossed]))
    else
      Ok(SwapState(path, taken, st.ticks))
  }

  /** Ticks left on the swap's side, and one more turn for the last step. */
  function Distance(s: Setting, p: Path): int {
    if Done(s, p) then 0 else if s.zeroForOne then 1 + p.tick - MIN_TICK else 1 + MAX_TICK - p.tick
  }

  /** Every turn brings the swap closer to its end. */
  lemma SwapOnceProgresses(s: Setting, config: AmmConfig, pool: PoolState, st: SwapState, st': SwapState)
    requires ValidSetting(s) && OnPath(s, st.path) && !Done(s, st.path) && SwapOnce(s, config, pool, st) == Ok(st')
    ensures OnPath(s, st'.path) && 0 <= Distance(s, st'.path) < Distance(s, st.path)
  {
    hide HopFrom, Advance, Take, GoodHop, ValidSetting;
    var hop := HopFrom(s, st.ticks, st.path).value;
    HopIsGood(s, st.ticks, st.path);
    HopArrivesOrEnds(s, st.ticks, st.path, hop, st'.path);
    HopStaysOnPath(s, st.ticks, st.path, hop, st'.path);
  }

  /** The loop, until the amount is used up or the limit is reached. */
  ghost function SwapLoop(s: Setting, config: AmmConfig, pool: PoolState, st: SwapState): Result<SwapState>
    requires ValidSetting(s) && OnPath(s, st.path)
    decreases Distance(s, st.path)
  {
    if Done(s, st.path) then Ok(st)
    else
      var turn := SwapOnce(s, config, pool, st);
      if turn.Err? then turn
      else
        SwapOnceProgresses(s, config, pool, st, turn.value);
        SwapLoop(s, config, pool, turn.value)
  }

  // -----------------------------------------------------------------------------------------
  // The whole instruction

  function LimitOrDefault(limit: nat, zeroForOne: bool): nat {
    if limit != 0 then limit else if zeroForOne then MIN_SQRT_PRICE + 1 else MAX_SQRT_PRICE - 1
  }

  predicate LimitInRange(limit: nat, sqrtPrice: nat, zeroForOne: bool) {
    if zeroForOne then MIN_SQRT_PRICE < limit < sqrtPrice else sqrtPrice < limit < MAX_SQRT_PRICE
  }

  function Start(pool: PoolState, ticks: map<int, TickState>, amount: nat, zeroForOne: bool): SwapState {
    SwapState(Path(amount, 0, pool.sqrtPrice, pool.tickCurrent, pool.liquidity),
              Takings(pool.growthGlobal[InToken(zeroForOne)], 0, 0, 0), ticks)
  }

  /** Tokens taken in and given out so far. */
  function PaidIn(s: Setting, amount: nat, p: Path): int {
    if s.baseInput then amount - p.remaining else p.calculated
  }

  function PaidOut(s: Setting, amount: nat, p: Path): int {
    if s.baseInput then p.calculated else amount - p.remaining
  }

  /** The pool with the loop's results written to it. */
  function WrittenBack(s: Setting, pool: PoolState, st: SwapState): PoolState {
    var c := InToken(s.zeroForOne);
    pool.(tickCurrent := st.path.tick,
          sqrtPrice := st.path.sqrtPrice,
          liquidity := st.path.liquidity,
          growthGlobal := pool.growthGlobal[c := st.taken.growth],
          total := pool.total[c := pool.total[c] + st.taken.lpFee],
          protocolFees := pool.protocolFees[c := pool.protocolFees[c] + st.taken.protocolFee],
          fundFees := pool.fundFees[c := pool.fundFees[c] + st.taken.fundFee])
  }

  /** The state with the loop's results written back and the tokens moved. */
  function Midway(s: Setting, l: Ledger, amount: nat, st: SwapState): Ledger {
    var c := InToken(s.zeroForOne);
    l.(pool := WrittenBack(s, l.pool, st),
       ticks := st.ticks,
       vaults := l.vaults[c := l.vaults[c] + PaidIn(s, amount, st.path)][1 - c := l.vaults[1 - c] - PaidOut(s, amount, st.path)])
  }

  /** Write back, and transfer. A vault that the payment would empty freezes the pool. */
  function Settle(s: Setting, l: Ledger, amount: nat, st: SwapState, threshold: nat): Result<Ledger> {
    var c := InToken(s.zeroForOne);
    var pool := WrittenBack(s, l.pool, st);
    var _ :- Require(pool.total[c] < U64_LIMIT && pool.protocolFees[c] < U64_LIMIT && pool.fundFees[c] < U64_LIMIT, Overflow);
    var _ :- Require(PaidIn(s, amount, st.path) >= 0 && PaidOut(s, amount, st.path) >= 0, Underflow);
    var _ :- Require(PaidIn(s, amount, st.path) > 0 && PaidOut(s, amount, st.path) > 0, TooSmallInputOrOutputAmount);
    var _ :- Require(PaidOut(s, amount, st.path) <= l.vaults[1 - c], InsufficientFunds);
    var _ :- Require(if s.zeroForOne then l.pool.sqrtPrice > pool.sqrtPrice else pool.sqrtPrice > l.pool.sqrtPrice, RequireViolated);
    var _ :- if s.baseInput then Require(PaidOut(s, amount, st.path) >= threshold, TooLittleOutputReceived)
             else Require(PaidIn(s, amount, st.path) <= threshold, TooMuchInputPaid);
    var after := Midway(s, l, amount, st);
    Ok(if l.vaults[1 - c] <= PaidOut(s, amount, st.path) then after.(pool := after.pool.(disabled := ALL_OPERATIONS)) else after)
  }

  /** `swap` (and `swap_v2` for tokens without transfer fees) */
  ghost function Swap(l: Ledger, amount: nat, threshold: nat, limit: nat, zeroForOne: bool, baseInput: bool): Result<Ledger>
    requires PriceInv(l) && ConfigInv(l.config)
  {
    var _ :- Require(l.now > l.pool.openTime, RequireViolated);
    var s := Setting(l.table, l.config.tradeFeeRate, LimitOrDefault(limit, zeroForOne), baseInput, zeroForOne);
    var _ :- Require(amount != 0, InvalidSwapAmountSpecified);
    var _ :- Require(SwapOp !in l.pool.disabled, NotApproved);
    var _ :- Require(LimitInRange(s.limit, l.pool.sqrtPrice, zeroForOne), SqrtPriceLimitOverflow);
    var pool :- UpdateRewardInfos(l.pool, l.now % U32_LIMIT);
    StartsOnPath(s, l, pool, amount);
    var st :- SwapLoop(s, l.config, pool, Start(pool, l.ticks, amount, zeroForOne));
    Settle(s, l.(pool := pool), amount, st, threshold)
  }

  lemma StartsOnPath(s: Setting, l: Ledger, pool: PoolState, amount: nat)
    requires PriceInv(l) && ConfigInv(l.config) && s.table == l.table && s.feeRate == l.config.tradeFeeRate
    requires LimitInRange(s.limit, l.pool.sqrtPrice, s.zeroForOne)
    requires UpdateRewardInfos(l.pool, l.now % U32_LIMIT) == Ok(pool)
    ensures ValidSetting(s) && OnPath(s, Start(pool, l.ticks, amount, s.zeroForOne).path)
  {
    RewardsKeepPrice(l.pool, l.now % U32_LIMIT);
    PriceIsMonotone(l.table, l.pool.tickCurrent, l.pool.tickCurrent + 1);
  }

  lemma RewardsKeepPrice(pool: PoolState, timestamp: nat)
    requires UpdateRewardInfos(pool, timestamp).Ok?
    ensures var updated := UpdateRewardInfos(pool, timestamp).value;
            updated.sqrtPrice == pool.sqrtPrice && updated.tickCurrent == pool.tickCurrent && updated.liquidity == pool.liquidity
  {
    PositionLemmas.RewardsOnlyGrow(pool, 0, timestamp);
  }
}
