/** Opening, increasing, decreasing and collecting keep every invariant of the pool. */
module PositionSafety {
  import opened Wrappers
  import opened FullMath
  import opened LiquidityMath
  import opened PoolTypes
  import opened TickGrowth
  import opened Ledger
  import opened Sums
  import opened Invariants
  import opened ClaimLemmas
  import opened PositionLemmas
  import opened Vaults

  /** The claims side of the state: ranges, ticks, growth and claims agree. */
  ghost predicate ClaimsInv(l: Ledger) {
    StructureInv(l) && HoldingsInv(l) && AccrualInv(l) && ClaimsCovered(l)
  }

  /** Everything that holds between instructions. */
  ghost predicate Inv(l: Ledger) {
    && ClaimsInv(l)
    && PriceInv(l)
    && ConfigInv(l.config)
    && VaultsInv(l)
    && TotalsFit(l.pool)
  }

  // -----------------------------------------------------------------------------------------
  // Rewards

  lemma SameBacking(l: Ledger, l': Ledger)
    requires ValidTable(l.table) && ValidRanges(l) && ValidRanges(l')
    requires l'.table == l.table && l'.protocols == l.protocols && l'.pool.sqrtPrice == l.pool.sqrtPrice
    ensures Backing(l', 0) == Backing(l, 0) && Backing(l', 1) == Backing(l, 1)
  {}

  /** Vault figures and reward times play no part in the claims. */
  lemma ClaimsFrame(l: Ledger, l': Ledger)
    requires ClaimsInv(l)
    requires l'.ticks == l.ticks && l'.protocols == l.protocols && l'.personals == l.personals
    requires l'.pool.liquidity == l.pool.liquidity && l'.pool.tickCurrent == l.pool.tickCurrent
    requires l'.pool.growthGlobal == l.pool.growthGlobal && l'.pool.total == l.pool.total && l'.pool.claimed == l.pool.claimed
    requires forall c :: 0 <= c < 5 && Live(l.pool.rewards, c) ==> Live(l'.pool.rewards, c)
    ensures ClaimsInv(l')
  {
    SameEarningsSameClaims(l, l');
  }

  lemma AccrueKeepsClaimsInv(l: Ledger, c: int, delta: nat, income: nat)
    requires ClaimsInv(l) && 0 <= c < 5 && Live(l.pool.rewards, c)
    requires l.pool.growthGlobal[c] + delta < U128_LIMIT && l.pool.liquidity * delta <= Q64 * income
    ensures ClaimsInv(Accrue(l, c, delta, income))
  {
    AccrueKeepsClaimsCovered(l, c, delta, income);
  }

  lemma EmissionPaysForGrowth(timeDelta: nat, emissions: nat, liquidity: nat, growth: nat, emitted: nat)
    requires 0 < liquidity
    requires IsFloor(growth, timeDelta * emissions, liquidity) && IsCeil(emitted, timeDelta * emissions, Q64)
    ensures liquidity * growth <= Q64 * emitted
  {}

  /** Updating one reward is letting its channel accrue, apart from the reward's own times. */
  lemma RewardStepAccrues(pool: PoolState, i: nat, timestamp: nat) returns (growth: nat, emitted: nat)
    requires i < REWARD_NUM && UpdateReward(pool, i, timestamp).Ok?
    requires pool.growthGlobal[2 + i] < U128_LIMIT && pool.total[2 + i] < U64_LIMIT
    ensures var pool' := UpdateReward(pool, i, timestamp).value;
            pool' == pool.(growthGlobal := pool.growthGlobal[2 + i := pool.growthGlobal[2 + i] + growth],
                           total := pool.total[2 + i := pool.total[2 + i] + emitted],
                           rewards := pool'.rewards) &&
            (forall k :: 0 <= k < 3 ==> pool'.rewards[k].initialized == pool.rewards[k].initialized)
    ensures growth > 0 || emitted > 0 ==> Live(pool.rewards, 2 + i)
    ensures pool.growthGlobal[2 + i] + growth < U128_LIMIT && pool.total[2 + i] + emitted < U64_LIMIT
    ensures pool.liquidity * growth <= Q64 * emitted
  {
    var r := pool.rewards[i];
    if !r.initialized || timestamp <= r.openTime || pool.liquidity == 0 {
      growth, emitted := 0, 0;
    } else {
      var timeDelta := CheckedSub(Min(timestamp, r.endTime), r.lastUpdateTime).value;
      growth := MulDivFloor256(timeDelta, r.emissionsPerSecond, pool.liquidity).value;
      emitted := MulDivCeil128(timeDelta, r.emissionsPerSecond, Q64).value;
      MulDivFloorIs(timeDelta, r.emissionsPerSecond, pool.liquidity, U256_LIMIT, U128_LIMIT);
      MulDivCeilIs(timeDelta, r.emissionsPerSecond, Q64, U256_LIMIT, U128_LIMIT);
      EmissionPaysForGrowth(timeDelta, r.emissionsPerSecond, pool.liquidity, growth, emitted);
    }
  }

  /** Vaults stay solvent while ranges, price and principal stand still. */
  lemma VaultsFrame(l: Ledger, l': Ledger)
    requires ValidTable(l.table) && ValidRanges(l) && ValidRanges(l') && VaultsInv(l)
    requires l'.table == l.table && l'.protocols == l.protocols && l'.pool.sqrtPrice == l.pool.sqrtPrice
    requires Principal(l', 0) >= Principal(l, 0) && Principal(l', 1) >= Principal(l, 1)
    ensures VaultsInv(l')
  {
    SameBacking(l, l');
  }

  lemma RewardStepKeepsClaims(l: Ledger, i: nat, timestamp: nat)
    requires ClaimsInv(l) && TotalsFit(l.pool) && i < REWARD_NUM && UpdateReward(l.pool, i, timestamp).Ok?
    ensures ClaimsInv(l.(pool := UpdateReward(l.pool, i, timestamp).value))
  {
    var growth, emitted := RewardStepAccrues(l.pool, i, timestamp);
    var l' := l.(pool := UpdateReward(l.pool, i, timestamp).value);
    if growth > 0 || emitted > 0 {
      AccrueKeepsClaimsInv(l, 2 + i, growth, emitted);
      ClaimsFrame(Accrue(l, 2 + i, growth, emitted), l');
    } else {
      ClaimsFrame(l, l');
    }
  }

  lemma RewardStepKeepsInv(l: Ledger, i: nat, timestamp: nat)
    requires Inv(l) && i < REWARD_NUM && UpdateReward(l.pool, i, timestamp).Ok?
    ensures Inv(l.(pool := UpdateReward(l.pool, i, timestamp).value))
  {
    RewardStepKeepsClaims(l, i, timestamp);
    var growth, emitted := RewardStepAccrues(l.pool, i, timestamp);
    VaultsFrame(l, l.(pool := UpdateReward(l.pool, i, timestamp).value));
  }

  lemma RewardsKeepInv(l: Ledger, i: nat, timestamp: nat)
    requires Inv(l) && i <= REWARD_NUM && UpdateRewardsFrom(l.pool, i, timestamp).Ok?
    ensures Inv(l.(pool := UpdateRewardsFrom(l.pool, i, timestamp).value))
    decreases REWARD_NUM - i
  {
    if i < REWARD_NUM {
      RewardStepKeepsInv(l, i, timestamp);
      RewardsKeepInv(l.(pool := UpdateReward(l.pool, i, timestamp).value), i + 1, timestamp);
    }
  }

  lemma WithRewardsKeepsInv(l: Ledger, timestamp: nat)
    requires Inv(l)
    ensures UpdateRewardInfos(l.pool, timestamp).Ok? ==>
              Inv(WithRewards(l, timestamp)) &&
              WithRewards(l, timestamp).pool == l.pool.(growthGlobal := WithRewards(l, timestamp).pool.growthGlobal,
                total := WithRewards(l, timestamp).pool.total, rewards := WithRewards(l, timestamp).pool.rewards)
  {
    if UpdateRewardInfos(l.pool, timestamp).Ok? {
      RewardsKeepInv(l, 0, timestamp);
      RewardsOnlyGrow(l.pool, 0, timestamp);
    }
  }

  // -----------------------------------------------------------------------------------------
  // Holdings

  lemma HeldPoint(personals: seq<PersonalPosition>, i: nat, p': PersonalPosition, j: int)
    requires i < |personals| && p'.protocol == personals[i].protocol
    ensures Held(personals[i := p'], j)
         == Held(personals, j) + (if p'.protocol == j then p'.liquidity - personals[i].liquidity else 0)
  {
    var personals' := personals[i := p'];
    assert Owners(personals') == Owners(personals);
    GroupToPoint(Owners(personals), Shares(personals), Shares(personals'), j, i, |personals|);
  }

  lemma HeldAppend(personals: seq<PersonalPosition>, p: PersonalPosition, j: int)
    ensures Held(personals + [p], j) == Held(personals, j) + (if p.protocol == j then p.liquidity else 0)
  {
    var personals' := personals + [p];
    GroupToPrefix(Owners(personals), Shares(personals), Owners(personals'), Shares(personals'), j, |personals|);
  }

  // -----------------------------------------------------------------------------------------
  // Minting

  /** The tokens a mint takes in cover the backing it adds. */
  lemma MintCoversBacking(l1: Ledger, l2: Ledger, j: nat, delta: nat, amount0: int, amount1: int)
    requires PriceInv(l1) && ValidRanges(l1) && ValidRanges(l2) && VaultsInv(l1)
    requires j < |l1.protocols| && Moved(l1, l2.(vaults := l1.vaults), j, delta)
    requires l2.vaults == [l1.vaults[0] + amount0, l1.vaults[1] + amount1]
    requires Covers(amount0, delta, UnitOf(l1, l1.protocols[j], 0)) && Covers(amount1, delta, UnitOf(l1, l1.protocols[j], 1))
    ensures VaultsInv(l2)
  {
    hide Backing, UnitOf, SlotMoved;
    var before := l1.protocols[j].liquidity;
    BackingPoint(l1, l2, j, 0);
    BackingPoint(l1, l2, j, 1);
    ShareAdd(before, delta, UnitOf(l1, l1.protocols[j], 0));
    ShareAdd(before, delta, UnitOf(l1, l1.protocols[j], 1));
  }

  /** Signed amounts of range `j`, asked for by the indices its slots carry. */
  ghost predicate AmountsOf(l: Ledger, j: nat, delta: int, amount0: int, amount1: int)
    requires j < |l.protocols|
  {
    var p := l.protocols[j];
    var lower, upper := NamedTick(l.ticks, p.tickLower).tick, NamedTick(l.ticks, p.tickUpper).tick;
    PriceAt(l.table, lower).Ok? && PriceAt(l.table, upper).Ok? &&
    GetDeltaAmountsSigned(l.pool.tickCurrent, l.pool.sqrtPrice, lower, upper, PriceAt(l.table, lower).value,
                          PriceAt(l.table, upper).value, delta) == Ok((amount0, amount1))
  }

  /** They cover the backing they are for. */
  lemma AmountsOfCover(l: Ledger, j: nat, delta: int, amount0: int, amount1: int)
    requires PriceInv(l) && ValidRanges(l) && NamedSlots(l) && j < |l.protocols| && AmountsOf(l, j, delta, amount0, amount1)
    ensures Covers(amount0, delta, UnitOf(l, l.protocols[j], 0)) && Covers(amount1, delta, UnitOf(l, l.protocols[j], 1))
  {
    var p := l.protocols[j];
    assert NamedTick(l.ticks, p.tickLower).tick == p.tickLower && NamedTick(l.ticks, p.tickUpper).tick == p.tickUpper;
    RangeAmountsCover(l, p, delta);
  }

  lemma ModifyAmounts(l: Ledger, j: nat, delta: int, timestamp: nat, m: Modified)
    requires j < |l.protocols| && Modifies(l, j, delta, timestamp, m) && delta != 0
    ensures AmountsOf(l, j, delta, m.amount0, m.amount1)
  {}

  lemma ModifyCovers(l: Ledger, j: nat, delta: int, timestamp: nat, m: Modified)
    requires PriceInv(l) && ValidRanges(l) && NamedSlots(l) && j < |l.protocols| && Modifies(l, j, delta, timestamp, m) && delta != 0
    ensures Covers(m.amount0, delta, UnitOf(l, l.protocols[j], 0)) && Covers(m.amount1, delta, UnitOf(l, l.protocols[j], 1))
  {
    ModifyAmounts(l, j, delta, timestamp, m);
    AmountsOfCover(l, j, delta, m.amount0, m.amount1);
  }

  lemma RangeAmountsCover(l: Ledger, p: ProtocolPosition, delta: int)
    requires PriceInv(l) && MIN_TICK <= p.tickLower < p.tickUpper <= MAX_TICK
    requires GetDeltaAmountsSigned(l.pool.tickCurrent, l.pool.sqrtPrice, p.tickLower, p.tickUpper,
                                   Price(l.table, p.tickLower), Price(l.table, p.tickUpper), delta).Ok?
    ensures var (amount0, amount1) :=
              GetDeltaAmountsSigned(l.pool.tickCurrent, l.pool.sqrtPrice, p.tickLower, p.tickUpper,
                                    Price(l.table, p.tickLower), Price(l.table, p.tickUpper), delta).value;
            Covers(amount0, delta, UnitOf(l, p, 0)) && Covers(amount1, delta, UnitOf(l, p, 1))
  {
    PriceIsMonotone(l.table, p.tickLower, p.tickUpper);
    TickTellsPrice(l, p.tickLower);
    TickTellsPrice(l, p.tickUpper);
    AmountsCoverBacking(l.pool.tickCurrent, l.pool.sqrtPrice, p.tickLower, p.tickUpper,
                        Price(l.table, p.tickLower), Price(l.table, p.tickUpper), delta);
  }

  /** The parts of a successful `add_liquidity`. */
  lemma AddUnfolds(l: Ledger, j: nat, liquidity: nat, max0: nat, max1: nat, baseFlag: Option<bool>, timestamp: nat, l': Ledger)
    returns (amount: nat, m: Modified)
    requires j < |l.protocols| && AddLiquidity(l, j, liquidity, max0, max1, baseFlag, timestamp) == Ok(l')
    ensures 0 < amount && (liquidity > 0 ==> amount == liquidity)
    ensures RequestedLiquidity(l.table, l.pool.sqrtPrice, l.protocols[j], liquidity, max0, max1, baseFlag) == Ok(amount)
    ensures Modifies(l, j, amount, timestamp, m)
    ensures l' == Minted(l, j, m)
  {
    var p := l.protocols[j];
    amount := RequestedLiquidity(l.table, l.pool.sqrtPrice, p, liquidity, max0, max1, baseFlag).value;
    m := ModifyPosition(l.table, l.pool, p, NamedTick(l.ticks, p.tickLower), NamedTick(l.ticks, p.tickUpper), amount, timestamp).value;
  }

  lemma MintKeepsClaims(l1: Ledger, l2: Ledger, j: nat, delta: nat)
    requires ClaimsInv(l1) && j < |l1.protocols| && Moved(l1, l2, j, delta)
    ensures ClaimsInv(l2)
  {
    MovedKeepsTotals(l1, l2, j, delta);
    MovedKeepsSlots(l1, l2, j, delta);
    forall k | 0 <= k < |l2.protocols| ensures Held(l2.personals, k) <= l2.protocols[k].liquidity {
      assert Held(l1.personals, k) <= l1.protocols[k].liquidity;
    }
    MovedKeepsClaims(l1, l2, j, delta);
  }

  lemma MintedKeepsClaims(l: Ledger, j: nat, delta: nat, timestamp: nat, m: Modified)
    requires j < |l.protocols| && 0 < delta && Modifies(l, j, delta, timestamp, m)
    requires UpdateRewardInfos(l.pool, timestamp).Ok? ==> ClaimsInv(WithRewards(l, timestamp))
    ensures UpdateRewardInfos(l.pool, timestamp).Ok? && Moved(WithRewards(l, timestamp), StoreModified(l, j, m), j, delta)
    ensures ClaimsInv(Minted(l, j, m))
  {
    ModifyMoves(l, j, delta, timestamp, m);
    MintKeepsClaims(WithRewards(l, timestamp), StoreModified(l, j, m), j, delta);
    ClaimsFrame(StoreModified(l, j, m), Minted(l, j, m));
  }

  /** Units are the same before and after the rewards are brought up to date. */
  lemma MintedKeepsVaults(l: Ledger, l1: Ledger, j: nat, delta: nat, m: Modified)
    requires PriceInv(l1) && ValidRanges(l1) && VaultsInv(l1) && l1 == l.(pool := l1.pool)
    requires l1.pool.sqrtPrice == l.pool.sqrtPrice
    requires j < |l.protocols| && Moved(l1, StoreModified(l, j, m), j, delta)
    requires ValidRanges(Minted(l, j, m))
    requires Covers(m.amount0, delta, UnitOf(l, l.protocols[j], 0)) && Covers(m.amount1, delta, UnitOf(l, l.protocols[j], 1))
    ensures VaultsInv(Minted(l, j, m))
  {
    MintCoversBacking(l1, Minted(l, j, m), j, delta, m.amount0, m.amount1);
  }

  /** The parts of the invariant that a change of liquidity or of claims leaves to be shown. */
  lemma Reassemble(l: Ledger, l': Ledger)
    requires PriceInv(l) && ConfigInv(l.config)
    requires l'.table == l.table && l'.config == l.config
    requires l'.pool.tickCurrent == l.pool.tickCurrent && l'.pool.sqrtPrice == l.pool.sqrtPrice
    requires ClaimsInv(l') && VaultsInv(l') && TotalsFit(l'.pool)
    ensures Inv(l')
  {}

  /** What a mint of `delta`, worked out as `m`, leaves behind. */
  ghost predicate MintEffect(l: Ledger, j: nat, delta: nat, m: Modified)
    requires j < |l.protocols|
  {
    var l' := Minted(l, j, m);
    && l'.personals == l.personals && |l'.protocols| == |l.protocols|
    && (forall k :: 0 <= k < |l.protocols| && k != j ==> l'.protocols[k] == l.protocols[k])
    && l'.protocols[j].liquidity == l.protocols[j].liquidity + delta
    && forall p: PersonalPosition :: p.protocol == j ==> RecordsGrowth(l', p, l'.protocols[j].growthInside)
  }

  lemma MintKeepsInv(l: Ledger, j: nat, delta: nat, timestamp: nat, m: Modified)
    requires Inv(l) && j < |l.protocols| && 0 < delta && Modifies(l, j, delta, timestamp, m)
    ensures Inv(Minted(l, j, m))
  {
    WithRewardsKeepsInv(l, timestamp);
    MintedKeepsClaims(l, j, delta, timestamp, m);
    ModifyCovers(l, j, delta, timestamp, m);
    MintedKeepsVaults(l, WithRewards(l, timestamp), j, delta, m);
    Reassemble(WithRewards(l, timestamp), Minted(l, j, m));
  }

  /** The vaults play no part in the growth of a range, nor do the figures a change rewrites in it. */
  lemma RecordsGrowthFrame(l: Ledger, l': Ledger, j: nat, inside: Five)
    requires j < |l.protocols| && j < |l'.protocols| && l'.pool == l.pool && l'.ticks == l.ticks
    requires l'.protocols[j].tickLower == l.protocols[j].tickLower && l'.protocols[j].tickUpper == l.protocols[j].tickUpper
    requires forall c :: 0 <= c < 5 ==> inside[c] == WrappingSub(RangeGrowth(l, l.protocols[j], c), 0)
    ensures forall p: PersonalPosition :: p.protocol == j ==> RecordsGrowth(l', p, inside)
  {}

  lemma MintHasEffect(l: Ledger, j: nat, delta: nat, timestamp: nat, m: Modified)
    requires Inv(l) && j < |l.protocols| && 0 < delta && Modifies(l, j, delta, timestamp, m)
    ensures MintEffect(l, j, delta, m)
  {
    hide HoldingsInv, AccrualInv, ClaimsCovered, PriceInv, VaultsInv, ConfigInv, TotalsFit, LiquidityInv, NamedSlots, GrowthInv, Modifies, UpdateRewardInfos;
    WithRewardsKeepsInv(l, timestamp);
    ModifyMoves(l, j, delta, timestamp, m);
    ModifyRecordsGrowth(l, j, delta, timestamp, m);
    var l2 := StoreModified(l, j, m);
    var at := l2.(protocols := l.protocols);
    assert at.protocols[j] == l.protocols[j];
    RecordsGrowthFrame(at, Minted(l, j, m), j, m.protocol.growthInside);
  }

  /** Raising one holding by no more than its range was raised. */
  lemma RaiseHolding(l: Ledger, l': Ledger, i: nat, p': PersonalPosition)
    requires ValidRanges(l) && HoldingsInv(l) && i < |l.personals|
    requires var j := l.personals[i].protocol;
             p'.protocol == j && |l'.protocols| == |l.protocols| &&
             l'.protocols[j].liquidity - l.protocols[j].liquidity >= p'.liquidity - l.personals[i].liquidity &&
             forall k :: 0 <= k < |l.protocols| && k != j ==> l'.protocols[k] == l.protocols[k]
    requires l'.personals == l.personals[i := p']
    ensures HoldingsInv(l')
  {
    forall k | 0 <= k < |l'.protocols| ensures Held(l'.personals, k) <= l'.protocols[k].liquidity {
      HeldPoint(l.personals, i, p', k);
      assert Held(l.personals, k) <= l.protocols[k].liquidity;
    }
  }

  /** Personal positions play no part in ticks, ranges and liquidity totals. */
  lemma StructureFrame(l: Ledger, personals: seq<PersonalPosition>)
    requires StructureInv(l) && ValidRanges(l.(personals := personals))
    ensures StructureInv(l.(personals := personals))
  {}

  /** A successful increase: `amount` was minted as `m`, and the position `p`, credited up to then,
      was given `liquidity` more. */
  ghost predicate Increased(l: Ledger, i: nat, liquidity: nat, amount: nat, m: Modified, p: PersonalPosition, l': Ledger)
    requires i < |l.personals| && l.personals[i].protocol < |l.protocols|
  {
    var j := l.personals[i].protocol;
    && 0 < amount && liquidity <= amount
    && Modifies(l, j, amount, l.now, m)
    && Credit(l.personals[i], Minted(l, j, m).protocols[j].growthInside) == Ok(p)
    && Minted(l, j, m).personals == l.personals
    && l' == WithPersonal(Minted(l, j, m), i, p.(liquidity := l.personals[i].liquidity + liquidity))
  }

  lemma IncreaseParts(l: Ledger, i: nat, liquidity: nat, max0: nat, max1: nat, baseFlag: Option<bool>, l': Ledger)
    returns (added: Ledger, p: PersonalPosition)
    requires i < |l.personals| && l.personals[i].protocol < |l.protocols|
    requires IncreaseLiquidity(l, i, liquidity, max0, max1, baseFlag) == Ok(l')
    ensures var j := l.personals[i].protocol;
            AddLiquidity(l, j, liquidity, max0, max1, baseFlag, l.now) == Ok(added) && j < |added.protocols| &&
            Credit(l.personals[i], added.protocols[j].growthInside) == Ok(p) &&
            l' == WithPersonal(added, i, p.(liquidity := p.liquidity + liquidity)) && added.personals == l.personals
  {
    hide RequestedLiquidity, ModifyPosition, Credit;
    var j := l.personals[i].protocol;
    added := AddLiquidity(l, j, liquidity, max0, max1, baseFlag, l.now).value;
    p := Credit(l.personals[i], added.protocols[j].growthInside).value;
  }

  lemma CreditKeepsLiquidity(p: PersonalPosition, inside: Five)
    requires Credit(p, inside).Ok?
    ensures Credit(p, inside).value.liquidity == p.liquidity && Credit(p, inside).value.protocol == p.protocol
  {}

  lemma IncreaseUnfolds(l: Ledger, i: nat, liquidity: nat, max0: nat, max1: nat, baseFlag: Option<bool>, l': Ledger)
    returns (amount: nat, m: Modified, p: PersonalPosition)
    requires i < |l.personals| && l.personals[i].protocol < |l.protocols|
    requires IncreaseLiquidity(l, i, liquidity, max0, max1, baseFlag) == Ok(l')
    ensures Increased(l, i, liquidity, amount, m, p, l')
    ensures RequestedLiquidity(l.table, l.pool.sqrtPrice, l.protocols[l.personals[i].protocol], liquidity, max0, max1, baseFlag) == Ok(amount)
  {
    hide IncreaseLiquidity, AddLiquidity, Credit, Modifies, RequestedLiquidity;
    var added;
    added, p := IncreaseParts(l, i, liquidity, max0, max1, baseFlag, l');
    CreditKeepsLiquidity(l.personals[i], added.protocols[l.personals[i].protocol].growthInside);
    amount, m := AddUnfolds(l, l.personals[i].protocol, liquidity, max0, max1, baseFlag, l.now, added);
  }

  /** Replacing a position by its credited self, with no more new liquidity than its range gained. */
  lemma CreditedKeepsClaims(l: Ledger, added: Ledger, i: nat, inside: Five, p: PersonalPosition, total: nat)
    requires ClaimsInv(added) && i < |added.personals| && added.personals == l.personals
    requires ValidRanges(l) && HoldingsInv(l)
    requires RecordsGrowth(added, l.personals[i], inside) && Credit(l.personals[i], inside) == Ok(p)
    requires var j := l.personals[i].protocol;
             |added.protocols| == |l.protocols| &&
             added.protocols[j].liquidity - l.protocols[j].liquidity >= total - l.personals[i].liquidity &&
             forall k :: 0 <= k < |l.protocols| && k != j ==> added.protocols[k] == l.protocols[k]
    ensures ClaimsInv(WithPersonal(added, i, p.(liquidity := total)))
  {
    CreditKeepsClaims(added, i, inside, total);
    var l' := WithPersonal(added, i, p.(liquidity := total));
    CreditKeepsLiquidity(l.personals[i], inside);
    RaiseHolding(l, l', i, l'.personals[i]);
    StructureFrame(added, l'.personals);
  }

  /** Crediting a position after a mint, and giving it no more than was minted. */
  lemma CreditAfterMint(l: Ledger, added: Ledger, i: nat, delta: nat, m: Modified, p: PersonalPosition, liquidity: nat)
    requires ValidRanges(l) && HoldingsInv(l) && i < |l.personals| && MintEffect(l, l.personals[i].protocol, delta, m)
    requires added == Minted(l, l.personals[i].protocol, m) && Inv(added) && added.personals == l.personals
    requires Credit(l.personals[i], added.protocols[l.personals[i].protocol].growthInside) == Ok(p)
    requires liquidity <= delta
    ensures Inv(WithPersonal(added, i, p.(liquidity := l.personals[i].liquidity + liquidity)))
  {
    hide AccrualInv, ClaimsCovered, LiquidityInv, NamedSlots, GrowthInv, VaultSolvent, Credit, CreditFrom, StoreModified, Modifies;
    var total := l.personals[i].liquidity + liquidity;
    CreditedKeepsClaims(l, added, i, added.protocols[l.personals[i].protocol].growthInside, p, total);
    VaultsFrame(added, WithPersonal(added, i, p.(liquidity := total)));
  }

  lemma IncreasedKeepsInv(l: Ledger, i: nat, liquidity: nat, amount: nat, m: Modified, p: PersonalPosition, l': Ledger)
    requires Inv(l) && i < |l.personals| && Increased(l, i, liquidity, amount, m, p, l')
    ensures Inv(l')
  {
    var j := l.personals[i].protocol;
    MintKeepsInv(l, j, amount, l.now, m);
    MintHasEffect(l, j, amount, l.now, m);
    CreditAfterMint(l, Minted(l, j, m), i, amount, m, p, liquidity);
  }

  lemma IncreaseKeepsInv(l: Ledger, i: nat, liquidity: nat, max0: nat, max1: nat, baseFlag: Option<bool>, l': Ledger)
    requires Inv(l) && i < |l.personals| && IncreaseLiquidity(l, i, liquidity, max0, max1, baseFlag) == Ok(l')
    ensures Inv(l')
  {
    var amount, m, p := IncreaseUnfolds(l, i, liquidity, max0, max1, baseFlag, l');
    IncreasedKeepsInv(l, i, liquidity, amount, m, p, l');
  }
}
