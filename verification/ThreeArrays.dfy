/** A pool with ticks in three tick arrays, on which a swap goes through that the client does not quote. */
module ThreeArrays {
  import opened Wrappers
  import opened FullMath
  import opened LiquidityMath
  import opened PoolTypes
  import opened TickGrowth
  import opened TickMath
  import opened Ledger
  import opened Invariants
  import opened PositionLemmas
  import opened Vaults
  import opened PositionSafety
  import opened OpenSafety
  import opened RewardAdmin
  import opened SwapMath
  import opened SwapValue
  import opened SwapPath
  import opened SwapLedger
  import opened SwapSafety
  import opened SwapOutcome
  import opened Machine
  import opened History
  import opened ArrayIndex
  import opened Quote
  import opened Instances

  // -----------------------------------------------------------------------------------------
  // The pool

  /** The price of tick -1, and the distance from it to that of tick 0. */
  const LOW: nat := 18445821805675395072
  const GAP: nat := 922268034156544

  /** What a full crossing of a range with 2^64 units of liquidity between the two releases. */
  const OUT: nat := 922314146405474
  const AMOUNT: nat := 1_000_000_000_000_000

  lemma PriceBelowZero()
    ensures SqrtPriceAt(-1) == LOW
  {
    ZeroTakesNoFactor(Scaled(Q64, 0), 1);
    assert Scaled(Q64, 0) == Factor(0);
  }

  /** The prices the swap meets. */
  lemma PricesMet()
    ensures var table := ConcreteTable();
            && ValidTable(table) && Price(table, -1) == LOW && Price(table, 0) == Q64 && Price(table, -2) <= LOW - 1
            && Q64 + 1 < Price(table, 1) <= Price(table, 60) < Price(table, 61) <= MAX_SQRT_PRICE
  {
    hide SqrtPriceAt, ValidTable;
    var table := ConcreteTable();
    TablePrices();
    PriceBelowZero();
    PriceIsMonotone(table, -2, -1);
    PriceIsMonotone(table, 1, 60);
    PriceIsMonotone(table, 60, 61);
    PriceIsMonotone(table, 61, 60);
  }

  ghost function Empty(): Ledger {
    PoolAt(LOW - 1, -2)
  }

  /** A range across the border of the arrays on either side of tick 0. */
  ghost function OneRange(): Ledger {
    Opened(Empty(), -1, 0, Q64, OUT + 1, 0)
  }

  /** And one in the array above. */
  ghost function TwoRanges(): Ledger {
    Opened(OneRange(), 60, 61, 1, 1, 0)
  }

  lemma FirstRangeCosts()
    ensures GetDeltaAmount0Signed(LOW, Q64, Q64) == Ok(OUT + 1)
  {
    hide MulDivCeil, FloorDiv;
    var n := Q64 * Q64 * GAP;
    MulDivCeilFits(Q64 * Q64, GAP, Q64, U256_LIMIT, U128_LIMIT);
    MulDivCeilIs(Q64 * Q64, GAP, Q64, U256_LIMIT, U128_LIMIT);
    var m := MulDivCeil256(Q64 * Q64, GAP, Q64).value;
    DivRoundingUpIs(m, LOW);
  }

  lemma SecondRangeCosts(a: nat, b: nat)
    requires Q64 < a < b <= MAX_SQRT_PRICE
    ensures GetDeltaAmount0Signed(a, b, 1) == Ok(1)
  {
    hide MulDivCeil, FloorDiv;
    MulDivCeilFits(Q64, b - a, b, U256_LIMIT, U128_LIMIT);
    MulDivCeilIs(Q64, b - a, b, U256_LIMIT, U128_LIMIT);
    var m := MulDivCeil256(Q64, b - a, b).value;
    CeilIsLeast(m, Q64 * (b - a), b, Q64);
    CeilIsLeast(m, Q64 * (b - a), b, 0);
    DivRoundingUpIs(m, a);
    CeilIsLeast(DivRoundingUp(m, a), m, a, 1);
    CeilIsLeast(DivRoundingUp(m, a), m, a, 0);
  }

  /** A run of two instructions on a new pool leads there. */
  lemma TwoRangesReached()
    ensures ValidTable(ConcreteTable()) && CreatePool(ConcreteTable(), NO_FEES, 1, LOW - 1, 0, 1) == Ok(Empty())
    ensures PoolInv(Empty()) && PoolInv(OneRange()) && PoolInv(TwoRanges())
    ensures OpenPosition(Empty(), -1, 0, Q64, OUT + 1, 0, None) == Ok(OneRange())
    ensures OpenPosition(OneRange(), 60, 61, 1, 1, 0, None) == Ok(TwoRanges())
  {
    hide PoolInv, ConcreteTable, OpenPosition, GetDeltaAmount0Signed, CreatePool;
    PricesMet();
    PoolAtIsNew(LOW - 1, -2);
    FirstRangeCosts();
    OpensQuietly(Empty(), -1, 0, Q64, OUT + 1, 0);
    InstructionKeepsInv(Empty(), Open(-1, 0, Q64, OUT + 1, 0, None), OneRange());
    SecondRangeCosts(Price(ConcreteTable(), 60), Price(ConcreteTable(), 61));
    OpensQuietly(OneRange(), 60, 61, 1, 1, 0);
    InstructionKeepsInv(OneRange(), Open(60, 61, 1, 1, 0, None), TwoRanges());
  }

  // -----------------------------------------------------------------------------------------
  // The swap

  ghost function Up(): Setting {
    Setting(ConcreteTable(), 0, Q64 + 1, true, false)
  }

  ghost function Ticks(): map<int, TickState> {
    TwoRanges().ticks
  }

  lemma TicksAre()
    ensures var ticks := Ticks();
            && TickOf(ticks, -1) == TickState(-1, Q64, Q64, ZERO_FIVE) && TickOf(ticks, 0) == TickState(0, -(Q64 as int), Q64, ZERO_FIVE)
            && TickOf(ticks, 60) == TickState(60, 1, 1, ZERO_FIVE)
            && forall t :: TickOf(ticks, t).IsInitialized() ==> t in {-1, 0, 60, 61}
  {}

  lemma NextTicks()
    ensures NextTick(Ticks(), -2, false) == Some(-1) && NextTick(Ticks(), -1, false) == Some(0) && NextTick(Ticks(), 0, false) == Some(60)
  {
    hide NextTick, Ticks;
    TicksAre();
    NextTickIs(Ticks(), -2, false);
    NextTickIs(Ticks(), -1, false);
    NextTickIs(Ticks(), 0, false);
  }

  // The states of the path, turn by turn.

  const START := Path(AMOUNT, 0, LOW - 1, -2, 0)
  const ENTERED := Path(AMOUNT, 0, LOW, -1, Q64)
  const LEFT := Path(AMOUNT - GAP, OUT, Q64, 0, 0)
  const ENDED := Path(AMOUNT - GAP, OUT, Q64 + 1, 0, 0)

  lemma CrossingStep()
    ensures StepOf(LOW, Q64, Q64, AMOUNT, 0, true, false) == Ok(SwapStep(Q64, GAP, OUT, 0))
  {
    hide MulDivCeil, MulDivFloor, FloorDiv;
    MulDivFloorFits(AMOUNT, FEE_RATE_DENOMINATOR, FEE_RATE_DENOMINATOR, U128_LIMIT, U64_LIMIT);
    MulDivFloorIs(AMOUNT, FEE_RATE_DENOMINATOR, FEE_RATE_DENOMINATOR, U128_LIMIT, U64_LIMIT);
    MulDivCeilFits(Q64, GAP, Q64, U256_LIMIT, U128_LIMIT);
    MulDivCeilIs(Q64, GAP, Q64, U256_LIMIT, U128_LIMIT);
    MulDivFloorFits(Q64 * Q64, GAP, Q64, U256_LIMIT, U128_LIMIT);
    MulDivFloorIs(Q64 * Q64, GAP, Q64, U256_LIMIT, U128_LIMIT);
    FloorDivIs(MulDivFloor256(Q64 * Q64, GAP, Q64).value, LOW);
    MulDivCeilFits(GAP, 0, FEE_RATE_DENOMINATOR, U128_LIMIT, U64_LIMIT);
    MulDivCeilIs(GAP, 0, FEE_RATE_DENOMINATOR, U128_LIMIT, U64_LIMIT);
  }

  /** The hops from tick to tick, and the last one to the limit. */
  ghost function FirstHop(): Hop { Hop(-1, LOW, LOW, SwapStep(LOW, 0, 0, 0), true) }

  ghost function SecondHop(): Hop { Hop(0, Q64, Q64, SwapStep(Q64, GAP, OUT, 0), true) }

  ghost function LastHop(): Hop { Hop(60, Price(ConcreteTable(), 60), Q64 + 1, SwapStep(Q64 + 1, 0, 0, 0), false) }

  lemma Hops()
    ensures HopFrom(Up(), Ticks(), START) == Ok(FirstHop())
    ensures HopFrom(Up(), Ticks(), ENTERED) == Ok(SecondHop())
    ensures HopFrom(Up(), Ticks(), LEFT) == Ok(LastHop())
  {
    hide StepOf, NextTick, Ticks, ConcreteTable, ValidTable;
    PricesMet();
    NextTicks();
    ZeroLiquidityStepSucceeds(LOW - 1, LOW, AMOUNT, 0, true, false);
    CrossingStep();
    ZeroLiquidityStepSucceeds(Q64, Q64 + 1, AMOUNT - GAP, 0, true, false);
  }

  lemma Advances()
    ensures Advance(Up(), Ticks(), START, FirstHop()) == Ok(ENTERED)
    ensures Advance(Up(), Ticks(), ENTERED, SecondHop()) == Ok(LEFT)
    ensures Advance(Up(), Ticks(), LEFT, LastHop()) == Ok(ENDED)
  {
    hide TickAtSqrtPrice, Ticks, ConcreteTable, ValidTable;
    TicksAre();
    PricesMet();
    TickOfPrice(ConcreteTable(), Q64 + 1, 0);
  }

  const NOTHING_TAKEN := Takings(0, 0, 0, 0)

  lemma NothingToTake(liquidity: nat)
    ensures Take(NO_FEES, NOTHING_TAKEN, liquidity, 0) == Ok(NOTHING_TAKEN)
  {
    hide MulDivFloor, FloorDiv;
    MulDivFloorFits(0, Q64, liquidity, U256_LIMIT, U128_LIMIT);
    MulDivFloorIs(0, Q64, liquidity, U256_LIMIT, U128_LIMIT);
  }

  lemma {:induction false} CrossesUnchanged(t: TickState, rewards: Rewards, c: nat)
    requires t.growthOutside == ZERO_FIVE && c <= 5
    ensures CrossFrom(t, ZERO_FIVE, rewards, c) == Ok(ZERO_FIVE[c..])
    decreases 5 - c
  {
    if c < 5 {
      CrossesUnchanged(t, rewards, c + 1);
      assert ZERO_FIVE[c] == 0;
      assert ZERO_FIVE[c..] == [0] + ZERO_FIVE[c + 1..];
    } else {
      assert ZERO_FIVE[c..] == [];
    }
  }

  /** A turn that charges nothing in a pool where nothing has grown. */
  lemma QuietTurn(p: Path, hop: Hop, p': Path)
    requires HopFrom(Up(), Ticks(), p) == Ok(hop) && Advance(Up(), Ticks(), p, hop) == Ok(p') && InOrder(Up(), p, hop)
    requires hop.step.feeAmount == 0 && hop.next in {-1, 0, 60}
    ensures SwapOnce(Up(), NO_FEES, TwoRanges().pool, SwapState(p, NOTHING_TAKEN, Ticks())) == Ok(SwapState(p', NOTHING_TAKEN, Ticks()))
  {
    hide HopFrom, Advance, Take, CrossFrom, ConcreteTable;
    NothingToTake(p.liquidity);
    var t, pool := TickOf(Ticks(), hop.next), TwoRanges().pool;
    CrossesUnchanged(t, pool.rewards, 0);
    assert ZERO_FIVE[0..] == ZERO_FIVE && pool.growthGlobal[1 := 0] == ZERO_FIVE;
    assert CrossTick(t, ZERO_FIVE, pool.rewards) == Ok(t);
    assert Ticks()[hop.next := t] == Ticks();
  }

  lemma LoopTurn(s: Setting, config: AmmConfig, pool: PoolState, st: SwapState, st': SwapState)
    requires ValidSetting(s) && OnPath(s, st.path) && !Done(s, st.path) && SwapOnce(s, config, pool, st) == Ok(st')
    ensures OnPath(s, st'.path) && SwapLoop(s, config, pool, st) == SwapLoop(s, config, pool, st')
  {
    hide SwapOnce, OnPath, ValidSetting, Distance;
    SwapOnceProgresses(s, config, pool, st, st');
  }

  /** Three turns: into the range, through it, and on to the limit. */
  lemma LoopRuns()
    requires ValidSetting(Up()) && OnPath(Up(), START)
    ensures SwapLoop(Up(), NO_FEES, TwoRanges().pool, SwapState(START, NOTHING_TAKEN, Ticks())) == Ok(SwapState(ENDED, NOTHING_TAKEN, Ticks()))
  {
    hide SwapOnce, HopFrom, Advance, ConcreteTable, Ticks, OnPath, ValidSetting, TwoRanges;
    Hops();
    Advances();
    PricesMet();
    QuietTurn(START, FirstHop(), ENTERED);
    QuietTurn(ENTERED, SecondHop(), LEFT);
    QuietTurn(LEFT, LastHop(), ENDED);
    LoopTurn(Up(), NO_FEES, TwoRanges().pool, SwapState(START, NOTHING_TAKEN, Ticks()), SwapState(ENTERED, NOTHING_TAKEN, Ticks()));
    LoopTurn(Up(), NO_FEES, TwoRanges().pool, SwapState(ENTERED, NOTHING_TAKEN, Ticks()), SwapState(LEFT, NOTHING_TAKEN, Ticks()));
    LoopTurn(Up(), NO_FEES, TwoRanges().pool, SwapState(LEFT, NOTHING_TAKEN, Ticks()), SwapState(ENDED, NOTHING_TAKEN, Ticks()));
  }

  lemma SwapGoesThrough()
    requires PriceInv(TwoRanges()) && ConfigInv(NO_FEES)
    ensures Swap(TwoRanges(), AMOUNT, 0, Q64 + 1, false, true).Ok?
  {
    hide SwapLoop, PriceInv, ConfigInv, ConcreteTable, OnPath, ValidSetting, UpdateRewardInfos;
    var l := TwoRanges();
    NothingToUpdate(l.pool, l.now % U32_LIMIT);
    StartsOnPath(Up(), l, l.pool, AMOUNT);
    assert Start(l.pool, l.ticks, AMOUNT, false) == SwapState(START, NOTHING_TAKEN, Ticks());
    LoopRuns();
    assert Settle(Up(), l.(pool := l.pool), AMOUNT, SwapState(ENDED, NOTHING_TAKEN, Ticks()), 0).Ok?;
  }

  /** There is a quote, but it needs two changes of arrays from whichever array it sets out. */
  lemma QuoteNeedsThreeArrays(c: int)
    ensures QuoteOf(ConcreteTable(), 0, TwoRanges().pool, Ticks(), AMOUNT, Q64 + 1, false, true) == Ok(OUT)
    ensures TwoRanges().pool.tickSpacing == 1
    ensures ArraysLeft(ConcreteTable(), 0, TwoRanges().pool, Ticks(), AMOUNT, Q64 + 1, false, true, c) >= 2
  {
    hide HopFrom, Advance, ConcreteTable, Ticks;
    Hops();
    Advances();
    QuoteLoops(START, FirstHop(), ENTERED, c, 0);
    QuoteLoops(ENTERED, SecondHop(), LEFT, -1, 1);
    QuoteLoops(LEFT, LastHop(), ENDED, 0, 2);
  }

  lemma QuoteLoops(p: Path, hop: Hop, p': Path, c: int, count: nat)
    requires HopFrom(Up(), Ticks(), p) == Ok(hop) && Advance(Up(), Ticks(), p, hop) == Ok(p') && !QuoteDone(Up(), p) && count < 3
    ensures QuoteLoop(Up(), Ticks(), p, count) == QuoteLoop(Up(), Ticks(), p', count + 1)
    ensures ArrayChanges(Up(), Ticks(), 1, p, c, count)
         == (if hop.next / 60 == c then 0 else 1) + ArrayChanges(Up(), Ticks(), 1, p', hop.next / 60, count + 1)
  {
    hide HopFrom, Advance, Ticks;
  }

  /** The program executes a swap for which the client's quote errs: the pool is reached from a new one by
      opening two positions, there is a quote, and yet from any array `c` it needs more changes of arrays than
      `SwapCompute` ever gets through. */
  lemma SwapWithoutQuote(c: int)
    ensures ValidTable(ConcreteTable()) && CreatePool(ConcreteTable(), NO_FEES, 1, LOW - 1, 0, 1) == Ok(Empty()) && PoolInv(Empty())
    ensures TwoRanges() == Run(Empty(), [Event(0, Open(-1, 0, Q64, OUT + 1, 0, None)), Event(0, Open(60, 61, 1, 1, 0, None))])
    ensures var l := TwoRanges();
            && PoolInv(l) && Swap(l, AMOUNT, 0, Q64 + 1, false, true).Ok?
            && QuoteOf(l.table, l.config.tradeFeeRate, l.pool, l.ticks, AMOUNT, Q64 + 1, false, true) == Ok(OUT)
            && l.pool.tickSpacing == 1
            && ArraysLeft(l.table, l.config.tradeFeeRate, l.pool, l.ticks, AMOUNT, Q64 + 1, false, true, c) > 1
  {
    hide Inv, TimesInv, Swap, QuoteOf, ArraysLeft, ConcreteTable, OpenPosition, CreatePool;
    TwoRangesReached();
    var l := TwoRanges();
    RunsThere();
    assert PriceInv(l) && ConfigInv(NO_FEES) by { InvHasPrice(l); }
    SwapGoesThrough();
    QuoteNeedsThreeArrays(c);
  }

  lemma InvHasPrice(l: Ledger)
    requires PoolInv(l)
    ensures PriceInv(l) && ConfigInv(l.config)
  {
    hide ClaimsInv, VaultsInv, TimesInv;
  }

  lemma RunsThere()
    requires PoolInv(Empty()) && PoolInv(OneRange())
    requires OpenPosition(Empty(), -1, 0, Q64, OUT + 1, 0, None) == Ok(OneRange())
    requires OpenPosition(OneRange(), 60, 61, 1, 1, 0, None) == Ok(TwoRanges())
    ensures TwoRanges() == Run(Empty(), [Event(0, Open(-1, 0, Q64, OUT + 1, 0, None)), Event(0, Open(60, 61, 1, 1, 0, None))])
  {
    hide PoolInv, OpenPosition, Empty, OneRange, TwoRanges;
    var first, second := Event(0, Open(-1, 0, Q64, OUT + 1, 0, None)), Event(0, Open(60, 61, 1, 1, 0, None));
    assert After(Empty(), 0) == Empty() && After(OneRange(), 0) == OneRange();
    assert Next(Empty(), first) == OneRange() && Next(OneRange(), second) == TwoRanges();
    NextKeepsInv(Empty(), first);
    NextKeepsInv(OneRange(), second);
    assert [first, second][1..] == [second] && [second][1..] == [];
    assert Run(OneRange(), [second]) == Run(TwoRanges(), []);
  }
}
