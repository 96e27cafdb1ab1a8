/** What minting and burning do to ticks, ranges and claims. */
module PositionLemmas {
  import opened Wrappers
  import opened FullMath
  import opened LiquidityMath
  import opened PoolTypes
  import opened TickGrowth
  import opened Ledger
  import opened Sums
  import opened Invariants
  import opened ClaimLemmas

  // -----------------------------------------------------------------------------------------
  // Liquidity of the ranges

  lemma TotalPoint(protocols: seq<ProtocolPosition>, j: nat, p: ProtocolPosition, w: Count)
    requires j < |protocols|
    ensures Total(protocols[j := p], w) == Total(protocols, w) + Counted(w, p) - Counted(w, protocols[j])
  {
    SumPoint(Terms(protocols, w), Terms(protocols[j := p], w), j);
  }

  lemma TotalNonNegative(protocols: seq<ProtocolPosition>, w: Count)
    requires !w.Net?
    ensures 0 <= Total(protocols, w)
    ensures forall j :: 0 <= j < |protocols| ==> Counted(w, protocols[j]) <= Total(protocols, w)
  {
    var s := Terms(protocols, w);
    SumToNonNegative(s, |s|);
    forall j | 0 <= j < |protocols| ensures Counted(w, protocols[j]) <= Total(protocols, w) {
      TermAtMostSum(s, j);
    }
  }

  /** Both ends of a range with liquidity are initialized, and their slots carry their index. */
  lemma LiveRangeIsInitialized(l: Ledger, j: nat)
    requires LiquidityInv(l) && NamedSlots(l) && j < |l.protocols| && l.protocols[j].liquidity > 0
    ensures var p := l.protocols[j];
            TickOf(l.ticks, p.tickLower).liquidityGross >= p.liquidity &&
            TickOf(l.ticks, p.tickUpper).liquidityGross >= p.liquidity &&
            TickOf(l.ticks, p.tickLower).tick == p.tickLower && TickOf(l.ticks, p.tickUpper).tick == p.tickUpper
  {
    var p := l.protocols[j];
    TotalNonNegative(l.protocols, Gross(p.tickLower));
    TotalNonNegative(l.protocols, Gross(p.tickUpper));
    assert Counted(Gross(p.tickLower), p) >= p.liquidity;
    assert Counted(Gross(p.tickUpper), p) >= p.liquidity;
  }

  lemma HolderOfLiveRange(l: Ledger, i: nat)
    requires ValidRanges(l) && HoldingsInv(l) && i < |l.personals|
    ensures l.personals[i].liquidity <= l.protocols[l.personals[i].protocol].liquidity
  {
    MemberAtMostGroup(Owners(l.personals), Shares(l.personals), i, |l.personals|);
    assert Held(l.personals, l.personals[i].protocol) <= l.protocols[l.personals[i].protocol].liquidity;
  }

  /** A slot whose liquidity moved by `delta`; its outside growth survives while it stays initialized. */
  ghost predicate SlotMoved(before: TickState, after: TickState, tick: int, delta: int, netDelta: int, growth: Five) {
    && after.tick == tick
    && after.liquidityGross == before.liquidityGross + delta
    && after.liquidityNet == before.liquidityNet + netDelta
    && (forall c :: 0 <= c < 5 ==> after.growthOutside[c] <= growth[c])
    && (before.liquidityGross > 0 && after.liquidityGross > 0 ==> after.growthOutside == before.growthOutside)
  }

  /** `l2` is `l1` after `delta` liquidity was added to range `j`. */
  ghost predicate Moved(l1: Ledger, l2: Ledger, j: nat, delta: int)
    requires j < |l1.protocols|
  {
    var p := l1.protocols[j];
    && p.tickLower < p.tickUpper
    && |l2.protocols| == |l1.protocols|
    && var p2 := l2.protocols[j];
    && p2.tickLower == p.tickLower && p2.tickUpper == p.tickUpper && p2.liquidity == p.liquidity + delta
    && l2 == l1.(pool := l2.pool, ticks := l2.ticks, protocols := l1.protocols[j := p2])
    && l2.pool == l1.pool.(liquidity := l2.pool.liquidity)
    && l2.pool.liquidity == l1.pool.liquidity + (if p.tickLower <= l1.pool.tickCurrent < p.tickUpper then delta else 0)
    && (forall t :: t != p.tickLower && t != p.tickUpper ==> TickOf(l2.ticks, t) == TickOf(l1.ticks, t))
    && SlotMoved(TickOf(l1.ticks, p.tickLower), TickOf(l2.ticks, p.tickLower), p.tickLower, delta, delta, l1.pool.growthGlobal)
    && SlotMoved(TickOf(l1.ticks, p.tickUpper), TickOf(l2.ticks, p.tickUpper), p.tickUpper, delta, -delta, l1.pool.growthGlobal)
  }

  lemma MovedKeepsTotals(l1: Ledger, l2: Ledger, j: nat, delta: int)
    requires j < |l1.protocols| && Moved(l1, l2, j, delta)
    requires LiquidityInv(l1)
    ensures LiquidityInv(l2)
  {
    var p2 := l2.protocols[j];
    TotalPoint(l1.protocols, j, p2, Active(l1.pool.tickCurrent));
    forall t
      ensures TickOf(l2.ticks, t).liquidityGross == Total(l2.protocols, Gross(t))
      ensures TickOf(l2.ticks, t).liquidityNet == Total(l2.protocols, Net(t))
    {
      TotalPoint(l1.protocols, j, p2, Gross(t));
      TotalPoint(l1.protocols, j, p2, Net(t));
    }
  }

  lemma MovedKeepsSlots(l1: Ledger, l2: Ledger, j: nat, delta: int)
    requires j < |l1.protocols| && Moved(l1, l2, j, delta)
    requires ValidRanges(l1) && NamedSlots(l1) && GrowthInv(l1)
    ensures ValidRanges(l2) && NamedSlots(l2) && GrowthInv(l2)
  {}

  /** An end that is initialized before and after keeps its outside growth. */
  lemma EndKept(l1: Ledger, l2: Ledger, j: nat, delta: int, t: int)
    requires j < |l1.protocols| && Moved(l1, l2, j, delta)
    requires TickOf(l1.ticks, t).liquidityGross > 0 && TickOf(l2.ticks, t).liquidityGross > 0
    ensures TickOf(l2.ticks, t).growthOutside == TickOf(l1.ticks, t).growthOutside
  {}

  /** A range with liquidity before and after keeps the growth inside it, also the range that moved. */
  lemma MovedKeepsGrowth(l1: Ledger, l2: Ledger, j: nat, delta: int, k: nat)
    requires j < |l1.protocols| && Moved(l1, l2, j, delta) && k < |l1.protocols|
    requires LiquidityInv(l1) && NamedSlots(l1) && LiquidityInv(l2) && NamedSlots(l2)
    requires l1.protocols[k].liquidity > 0 && l2.protocols[k].liquidity > 0
    ensures forall c :: 0 <= c < 5 ==> RangeGrowth(l2, l2.protocols[k], c) == RangeGrowth(l1, l1.protocols[k], c)
  {
    LiveRangeIsInitialized(l1, k);
    LiveRangeIsInitialized(l2, k);
    EndKept(l1, l2, j, delta, l1.protocols[k].tickLower);
    EndKept(l1, l2, j, delta, l1.protocols[k].tickUpper);
  }

  /** Every owner who still has liquidity keeps what the range has earned for it. */
  lemma MovedKeepsEarnings(l1: Ledger, l2: Ledger, j: nat, delta: int, i: nat)
    requires j < |l1.protocols| && Moved(l1, l2, j, delta)
    requires ValidRanges(l1) && LiquidityInv(l1) && NamedSlots(l1) && HoldingsInv(l1)
    requires ValidRanges(l2) && LiquidityInv(l2) && NamedSlots(l2) && HoldingsInv(l2)
    requires i < |l1.personals| && l1.personals[i].liquidity > 0
    ensures forall c :: 0 <= c < 5 ==> Uncredited(l2, l1.personals[i], c) == Uncredited(l1, l1.personals[i], c)
  {
    hide LiquidityInv, NamedSlots, RangeGrowth, SlotMoved;
    HolderOfLiveRange(l1, i);
    HolderOfLiveRange(l2, i);
    MovedKeepsGrowth(l1, l2, j, delta, l1.personals[i].protocol);
    forall c | 0 <= c < 5 ensures Uncredited(l2, l1.personals[i], c) == Uncredited(l1, l1.personals[i], c) {}
  }

  /** Claims only look at the earnings of owners with liquidity. */
  lemma SameEarningsSameClaims(l1: Ledger, l2: Ledger)
    requires ValidRanges(l1) && ValidRanges(l2) && l1.personals == l2.personals
    requires l2.pool.growthGlobal == l1.pool.growthGlobal
    requires l2.pool.total == l1.pool.total && l2.pool.claimed == l1.pool.claimed
    requires forall i, c :: 0 <= i < |l1.personals| && 0 <= c < 5 && l1.personals[i].liquidity > 0 ==>
               Uncredited(l2, l1.personals[i], c) == Uncredited(l1, l1.personals[i], c)
    requires AccrualInv(l1) && ClaimsCovered(l1)
    ensures AccrualInv(l2) && ClaimsCovered(l2)
  {
    forall c | 0 <= c < 5 ensures ChannelSolvent(l2, c) {
      assert Claims(l2, c) == Claims(l1, c);
      assert ChannelSolvent(l1, c);
    }
  }

  lemma MovedKeepsClaims(l1: Ledger, l2: Ledger, j: nat, delta: int)
    requires j < |l1.protocols| && Moved(l1, l2, j, delta)
    requires ValidRanges(l1) && LiquidityInv(l1) && NamedSlots(l1) && HoldingsInv(l1)
    requires ValidRanges(l2) && LiquidityInv(l2) && NamedSlots(l2) && HoldingsInv(l2)
    requires AccrualInv(l1) && ClaimsCovered(l1)
    ensures AccrualInv(l2) && ClaimsCovered(l2)
  {
    forall i | 0 <= i < |l1.personals| && l1.personals[i].liquidity > 0
      ensures forall c :: 0 <= c < 5 ==> Uncredited(l2, l1.personals[i], c) == Uncredited(l1, l1.personals[i], c)
    {
      MovedKeepsEarnings(l1, l2, j, delta, i);
    }
    SameEarningsSameClaims(l1, l2);
  }

  // -----------------------------------------------------------------------------------------
  // `modify_position` moves liquidity

  /** No more liquidity is netted at a tick than references it. */
  lemma NetWithinGross(protocols: seq<ProtocolPosition>, t: int)
    ensures -Total(protocols, Gross(t)) <= Total(protocols, Net(t)) <= Total(protocols, Gross(t))
  {
    var gross, net := Terms(protocols, Gross(t)), Terms(protocols, Net(t));
    SumLe(net, gross);
    var sum := seq(|protocols|, j requires 0 <= j < |protocols| => gross[j] + net[j]);
    SumAddScaled(gross, sum, net, 1);
    SumToNonNegative(sum, |sum|);
  }

  /** The end of a range that loses its last reference nets to zero. */
  lemma EmptiedTickNetsToZero(l: Ledger, j: nat, p2: ProtocolPosition, t: int, delta: int, netDelta: int)
    requires LiquidityInv(l) && j < |l.protocols|
    requires Counted(Gross(t), p2) == Counted(Gross(t), l.protocols[j]) + delta
    requires Counted(Net(t), p2) == Counted(Net(t), l.protocols[j]) + netDelta
    ensures TickOf(l.ticks, t).liquidityGross + delta == 0 ==> TickOf(l.ticks, t).liquidityNet + netDelta == 0
  {
    TotalPoint(l.protocols, j, p2, Gross(t));
    TotalPoint(l.protocols, j, p2, Net(t));
    NetWithinGross(l.protocols[j := p2], t);
  }

  /** What becomes of a slot: `t` is the updated tick, before it is cleared if it emptied. */
  ghost predicate SlotStep(before: TickState, t: TickState, flipped: bool, tick: int, delta: int, netDelta: int, growth: Five) {
    && SlotMoved(before, Settled(t, delta, flipped), tick, delta, netDelta, growth)
    && t.tick == tick
    && (forall c :: 0 <= c < 5 ==> t.growthOutside[c] <= growth[c])
    && t.growthOutside == (if delta <= 0 then before else Settled(t, delta, flipped)).growthOutside
  }

  lemma UpdateMovesSlot(before: TickState, tickCurrent: int, delta: int, growth: Five, upper: bool)
    requires UpdateTickUnlessZero(before, tickCurrent, delta, growth, upper).Ok?
    requires forall c :: 0 <= c < 5 ==> before.growthOutside[c] <= growth[c]
    requires before.liquidityGross + delta == 0 ==> before.liquidityNet + (if upper then -delta else delta) == 0
    ensures var (t, flipped) := UpdateTickUnlessZero(before, tickCurrent, delta, growth, upper).value;
            SlotStep(before, t, flipped, before.tick, delta, if upper then -delta else delta, growth)
  {}

  lemma RewardsOnlyGrow(pool: PoolState, i: nat, timestamp: nat)
    requires i <= REWARD_NUM && UpdateRewardsFrom(pool, i, timestamp).Ok?
    ensures var updated := UpdateRewardsFrom(pool, i, timestamp).value;
            updated == pool.(growthGlobal := updated.growthGlobal, total := updated.total, rewards := updated.rewards) &&
            updated.growthGlobal[..2] == pool.growthGlobal[..2] && updated.total[..2] == pool.total[..2]
    decreases REWARD_NUM - i
  {
    if i < REWARD_NUM {
      var next := UpdateReward(pool, i, timestamp).value;
      RewardsOnlyGrow(next, i + 1, timestamp);
    }
  }

  lemma InfosOnlyGrow(pool: PoolState, timestamp: nat)
    requires UpdateRewardInfos(pool, timestamp).Ok?
    ensures var updated := UpdateRewardInfos(pool, timestamp).value;
            updated == pool.(growthGlobal := updated.growthGlobal, total := updated.total, rewards := updated.rewards)
  {
    RewardsOnlyGrow(pool, 0, timestamp);
  }

  /** The state with its rewards brought up to date. */
  function WithRewards(l: Ledger, timestamp: nat): Ledger
    requires UpdateRewardInfos(l.pool, timestamp).Ok?
  {
    l.(pool := UpdateRewardInfos(l.pool, timestamp).value)
  }

  ghost predicate StructureInv(l: Ledger) {
    ValidRanges(l) && LiquidityInv(l) && NamedSlots(l) && GrowthInv(l)
  }

  /** Both slots of range `j` after a change by `delta`. */
  lemma SlotsMove(l: Ledger, j: nat, delta: int, p2: ProtocolPosition)
    requires StructureInv(l) && j < |l.protocols|
    requires var p := l.protocols[j];
             p2.tickLower == p.tickLower && p2.tickUpper == p.tickUpper && p2.liquidity == p.liquidity + delta
    ensures var p := l.protocols[j];
            var lower, upper := NamedTick(l.ticks, p.tickLower), NamedTick(l.ticks, p.tickUpper);
            var a := UpdateTickUnlessZero(lower, l.pool.tickCurrent, delta, l.pool.growthGlobal, false);
            var b := UpdateTickUnlessZero(upper, l.pool.tickCurrent, delta, l.pool.growthGlobal, true);
            (a.Ok? ==> SlotStep(lower, a.value.0, a.value.1, p.tickLower, delta, delta, l.pool.growthGlobal)) &&
            (b.Ok? ==> SlotStep(upper, b.value.0, b.value.1, p.tickUpper, delta, -delta, l.pool.growthGlobal))
  {
    var p := l.protocols[j];
    EmptiedTickNetsToZero(l, j, p2, p.tickLower, delta, delta);
    EmptiedTickNetsToZero(l, j, p2, p.tickUpper, delta, -delta);
    var lower, upper := NamedTick(l.ticks, p.tickLower), NamedTick(l.ticks, p.tickUpper);
    if UpdateTickUnlessZero(lower, l.pool.tickCurrent, delta, l.pool.growthGlobal, false).Ok? {
      UpdateMovesSlot(lower, l.pool.tickCurrent, delta, l.pool.growthGlobal, false);
    }
    if UpdateTickUnlessZero(upper, l.pool.tickCurrent, delta, l.pool.growthGlobal, true).Ok? {
      UpdateMovesSlot(upper, l.pool.tickCurrent, delta, l.pool.growthGlobal, true);
    }
  }

  /** What a successful `modify_position` is made of. */
  lemma ModifyUnfolds(table: PriceTable, pool: PoolState, protocol: ProtocolPosition, lower: TickState, upper: TickState,
                      delta: int, timestamp: nat, m: Modified)
    returns (updated: PoolState, a: TickState, flippedA: bool, b: TickState, flippedB: bool)
    requires ModifyPosition(table, pool, protocol, lower, upper, delta, timestamp) == Ok(m)
    ensures UpdateRewardInfos(pool, timestamp) == Ok(updated)
    ensures UpdateTickUnlessZero(lower, pool.tickCurrent, delta, updated.growthGlobal, false) == Ok((a, flippedA))
    ensures UpdateTickUnlessZero(upper, pool.tickCurrent, delta, updated.growthGlobal, true) == Ok((b, flippedB))
    ensures GrowthInside(a, b, pool.tickCurrent, updated.growthGlobal, updated.rewards) == Ok(m.protocol.growthInside)
    ensures m.lower == Settled(a, delta, flippedA) && m.upper == Settled(b, delta, flippedB)
    ensures m.flippedLower == flippedA && m.flippedUpper == flippedB
    ensures m.protocol.tickLower == a.tick && m.protocol.tickUpper == b.tick
    ensures m.protocol.liquidity == protocol.liquidity + delta
    ensures delta == 0 ==> protocol.liquidity > 0
    ensures m.pool == updated.(liquidity := m.pool.liquidity)
    ensures m.pool.liquidity == if delta == 0 then updated.liquidity
                                else if lower.tick <= pool.tickCurrent < upper.tick then pool.liquidity + delta
                                else pool.liquidity
  {
    updated := UpdateRewardInfos(pool, timestamp).value;
    var (a', flippedA') := UpdateTickUnlessZero(lower, pool.tickCurrent, delta, updated.growthGlobal, false).value;
    var (b', flippedB') := UpdateTickUnlessZero(upper, pool.tickCurrent, delta, updated.growthGlobal, true).value;
    a, flippedA, b, flippedB := a', flippedA', b', flippedB';
  }

  /** A successful `modify_position` on range `j`. */
  ghost predicate Modifies(l: Ledger, j: nat, delta: int, timestamp: nat, m: Modified)
    requires j < |l.protocols|
  {
    var p := l.protocols[j];
    ModifyPosition(l.table, l.pool, p, NamedTick(l.ticks, p.tickLower), NamedTick(l.ticks, p.tickUpper), delta, timestamp) == Ok(m)
  }

  /** Writing the parts of a change back makes it a move. */
  lemma StoredIsMoved(l1: Ledger, j: nat, delta: int, m: Modified)
    requires j < |l1.protocols|
    requires var p := l1.protocols[j];
             && p.tickLower < p.tickUpper
             && SlotMoved(NamedTick(l1.ticks, p.tickLower), m.lower, p.tickLower, delta, delta, l1.pool.growthGlobal)
             && SlotMoved(NamedTick(l1.ticks, p.tickUpper), m.upper, p.tickUpper, delta, -delta, l1.pool.growthGlobal)
             && m.protocol.tickLower == p.tickLower && m.protocol.tickUpper == p.tickUpper
             && m.protocol.liquidity == p.liquidity + delta
             && m.pool == l1.pool.(liquidity := m.pool.liquidity)
             && m.pool.liquidity == l1.pool.liquidity + (if p.tickLower <= l1.pool.tickCurrent < p.tickUpper then delta else 0)
    ensures Moved(l1, StoreModified(l1, j, m), j, delta)
  {}

  /** It moved exactly `delta` liquidity. */
  lemma ModifyMoves(l: Ledger, j: nat, delta: int, timestamp: nat, m: Modified)
    requires j < |l.protocols| && Modifies(l, j, delta, timestamp, m)
    requires UpdateRewardInfos(l.pool, timestamp).Ok? ==> StructureInv(WithRewards(l, timestamp))
    ensures UpdateRewardInfos(l.pool, timestamp).Ok?
    ensures Moved(WithRewards(l, timestamp), StoreModified(l, j, m), j, delta)
  {
    var p := l.protocols[j];
    RewardsOnlyGrow(l.pool, 0, timestamp);
    var updated, a, flippedA, b, flippedB :=
      ModifyUnfolds(l.table, l.pool, p, NamedTick(l.ticks, p.tickLower), NamedTick(l.ticks, p.tickUpper), delta, timestamp, m);
    var l1 := WithRewards(l, timestamp);
    SlotsMove(l1, j, delta, p.(liquidity := m.protocol.liquidity));
    assert ValidRanges(l1);
    StoredIsMoved(l1, j, delta, m);
    assert StoreModified(l1, j, m) == StoreModified(l, j, m);
  }

  /** The recorded growth is that of the range in any state with the same ends and accumulators. */
  lemma RecordedInside(l: Ledger, p: ProtocolPosition, a: TickState, b: TickState, inside: Five)
    requires GrowthInv(l) && a.tick == p.tickLower && b.tick == p.tickUpper
    requires a.growthOutside == TickOf(l.ticks, p.tickLower).growthOutside
    requires b.growthOutside == TickOf(l.ticks, p.tickUpper).growthOutside
    requires GrowthInside(a, b, l.pool.tickCurrent, l.pool.growthGlobal, l.pool.rewards) == Ok(inside)
    ensures forall c :: 0 <= c < 5 ==> inside[c] == WrappingSub(RangeGrowth(l, p, c), 0)
  {
    GrowthInsideIs(a, b, l.pool.tickCurrent, l.pool.growthGlobal, l.pool.rewards, inside);
    forall c | 0 <= c < 5 ensures inside[c] == WrappingSub(RangeGrowth(l, p, c), 0) {
      InsideIsRaw(a, b, l.pool.tickCurrent, l.pool.growthGlobal, l.pool.rewards, c);
    }
  }

  /** The state in which the recorded growth is that of the range: before liquidity leaves, after
      liquidity arrives. */
  ghost function RecordedAt(l: Ledger, j: nat, delta: int, timestamp: nat, m: Modified): Ledger
    requires j < |l.protocols| && UpdateRewardInfos(l.pool, timestamp).Ok?
  {
    if delta <= 0 then WithRewards(l, timestamp) else StoreModified(l, j, m)
  }

  /** Both ends as `update_position` had them when it read the growth. */
  lemma ModifyReadsGrowth(l: Ledger, j: nat, delta: int, timestamp: nat, m: Modified) returns (a: TickState, b: TickState)
    requires j < |l.protocols| && Modifies(l, j, delta, timestamp, m)
    requires UpdateRewardInfos(l.pool, timestamp).Ok? && StructureInv(WithRewards(l, timestamp))
    ensures var at, p := RecordedAt(l, j, delta, timestamp, m), l.protocols[j];
            && a.tick == p.tickLower && b.tick == p.tickUpper
            && a.growthOutside == TickOf(at.ticks, p.tickLower).growthOutside
            && b.growthOutside == TickOf(at.ticks, p.tickUpper).growthOutside
            && GrowthInside(a, b, at.pool.tickCurrent, at.pool.growthGlobal, at.pool.rewards) == Ok(m.protocol.growthInside)
  {
    var p := l.protocols[j];
    RewardsOnlyGrow(l.pool, 0, timestamp);
    var updated, a', flippedA, b', flippedB :=
      ModifyUnfolds(l.table, l.pool, p, NamedTick(l.ticks, p.tickLower), NamedTick(l.ticks, p.tickUpper), delta, timestamp, m);
    a, b := a', b';
    SlotsMove(WithRewards(l, timestamp), j, delta, p.(liquidity := m.protocol.liquidity));
    assert ValidRanges(WithRewards(l, timestamp));
  }

  lemma ModifyRecordsGrowth(l: Ledger, j: nat, delta: int, timestamp: nat, m: Modified)
    requires j < |l.protocols| && Modifies(l, j, delta, timestamp, m)
    requires UpdateRewardInfos(l.pool, timestamp).Ok? && StructureInv(WithRewards(l, timestamp))
    ensures forall c :: 0 <= c < 5 ==>
              m.protocol.growthInside[c] == WrappingSub(RangeGrowth(RecordedAt(l, j, delta, timestamp, m), l.protocols[j], c), 0)
  {
    var a, b := ModifyReadsGrowth(l, j, delta, timestamp, m);
    ModifyMoves(l, j, delta, timestamp, m);
    MovedKeepsSlots(WithRewards(l, timestamp), StoreModified(l, j, m), j, delta);
    RecordedInside(RecordedAt(l, j, delta, timestamp, m), l.protocols[j], a, b, m.protocol.growthInside);
  }
}
