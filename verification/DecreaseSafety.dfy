/** Decreasing, collecting and withdrawing keep every invariant, and what is owed can be paid. */
module DecreaseSafety {
  import opened Wrappers
  import opened FullMath
  import opened LiquidityMath
  import opened PoolTypes
  import opened TickGrowth
  import opened Ledger
  import opened Sums
  import opened Invariants
  import opened ClaimLemmas
  import opened PositionLemmas
  import opened Vaults
  import opened PositionSafety

  /** The vaults hold everything they back, and `out0` and `out1` on top. */
  ghost predicate VaultsHold(l: Ledger, out0: int, out1: int)
    requires ValidTable(l.table) && ValidRanges(l)
  {
    && RealSum(Backing(l, 0)) + out0 as real <= Principal(l, 0) as real
    && RealSum(Backing(l, 1)) + out1 as real <= Principal(l, 1) as real
  }

  /** The invariant within an instruction that has yet to pay `out0` and `out1`. */
  ghost predicate InvOwing(l: Ledger, out0: int, out1: int) {
    && ClaimsInv(l)
    && PriceInv(l)
    && ConfigInv(l.config)
    && VaultsHold(l, out0, out1)
    && TotalsFit(l.pool)
  }

  lemma OwingNothingIsInv(l: Ledger)
    ensures InvOwing(l, 0, 0) <==> Inv(l)
  {}

  // -----------------------------------------------------------------------------------------
  // Burning

  /** Removing liquidity frees at least what is paid for it, in one token. */
  lemma BurnFreesAmount(l1: Ledger, l2: Ledger, j: nat, liquidity: nat, amount: int, token: int)
    requires ValidTable(l1.table) && ValidRanges(l1) && ValidRanges(l2)
    requires j < |l1.protocols| && Moved(l1, l2, j, 0 - liquidity) && 0 <= token < 2
    requires if liquidity == 0 then amount == 0 else Covers(-amount, 0 - liquidity, UnitOf(l1, l1.protocols[j], token))
    ensures RealSum(Backing(l2, token)) + amount as real <= RealSum(Backing(l1, token))
  {
    hide UnitOf, ValidTable, Backing, RealSum;
    BackingPoint(l1, l2, j, token);
    ShareAdd(l2.protocols[j].liquidity, liquidity, UnitOf(l1, l1.protocols[j], token));
  }

  lemma BurnFreesAmounts(l1: Ledger, l2: Ledger, j: nat, liquidity: nat, amount0: int, amount1: int)
    requires PriceInv(l1) && ValidRanges(l1) && ValidRanges(l2) && VaultsInv(l1)
    requires j < |l1.protocols| && Moved(l1, l2, j, 0 - liquidity)
    requires liquidity == 0 ==> amount0 == 0 && amount1 == 0
    requires liquidity > 0 ==> Covers(-amount0, 0 - liquidity, UnitOf(l1, l1.protocols[j], 0))
    requires liquidity > 0 ==> Covers(-amount1, 0 - liquidity, UnitOf(l1, l1.protocols[j], 1))
    ensures VaultsHold(l2, amount0, amount1)
  {
    hide UnitOf, Covers, ValidTable, Backing, RealSum;
    BurnFreesAmount(l1, l2, j, liquidity, amount0, 0);
    BurnFreesAmount(l1, l2, j, liquidity, amount1, 1);
  }

  /** A successful burn found liquidity in the range, so both slots carry their index. */
  lemma BurnFindsNamedTicks(l: Ledger, j: nat, liquidity: nat, timestamp: nat, m: Modified)
    requires LiquidityInv(l) && NamedSlots(l) && j < |l.protocols|
    requires var p := l.protocols[j];
             ModifyPosition(l.table, l.pool, p, TickOf(l.ticks, p.tickLower), TickOf(l.ticks, p.tickUpper), 0 - liquidity, timestamp) == Ok(m)
    ensures Modifies(l, j, 0 - liquidity, timestamp, m)
  {
    var p := l.protocols[j];
    var updated, a, flippedA, b, flippedB :=
      ModifyUnfolds(l.table, l.pool, p, TickOf(l.ticks, p.tickLower), TickOf(l.ticks, p.tickUpper), 0 - liquidity, timestamp, m);
    LiveRangeIsInitialized(l, j);
    assert TickOf(l.ticks, p.tickLower) == NamedTick(l.ticks, p.tickLower);
    assert TickOf(l.ticks, p.tickUpper) == NamedTick(l.ticks, p.tickUpper);
  }

  /** A successful burn: `m` was worked out, and the position `p`, credited up to then, gave up `liquidity`. */
  ghost predicate Burnt(l: Ledger, i: nat, liquidity: nat, m: Modified, p: PersonalPosition, l': Ledger)
    requires i < |l.personals| && l.personals[i].protocol < |l.protocols|
  {
    var j := l.personals[i].protocol;
    && liquidity <= l.personals[i].liquidity
    && Modifies(l, j, 0 - liquidity, l.now, m)
    && (liquidity == 0 ==> m.amount0 == 0 && m.amount1 == 0)
    && Credit(l.personals[i], m.protocol.growthInside) == Ok(p)
    && l' == WithPersonal(StoreModified(l, j, m), i, p.(liquidity := l.personals[i].liquidity - liquidity))
  }

  /** The parts of `burn_liquidity`. */
  lemma BurnParts(l: Ledger, j: nat, liquidity: nat, burnt: Ledger, amount0: nat, amount1: nat) returns (m: Modified)
    requires j < |l.protocols| && BurnLiquidity(l, j, liquidity) == Ok((burnt, amount0, amount1))
    ensures var p := l.protocols[j];
            ModifyPosition(l.table, l.pool, p, TickOf(l.ticks, p.tickLower), TickOf(l.ticks, p.tickUpper), 0 - liquidity, l.now) == Ok(m)
    ensures burnt == StoreModified(l, j, m) && amount0 == -m.amount0 && amount1 == -m.amount1
  {
    var p := l.protocols[j];
    m := ModifyPosition(l.table, l.pool, p, TickOf(l.ticks, p.tickLower), TickOf(l.ticks, p.tickUpper), 0 - liquidity, l.now).value;
  }

  lemma ZeroModifyMovesNoTokens(table: PriceTable, pool: PoolState, protocol: ProtocolPosition, lower: TickState,
                                upper: TickState, timestamp: nat)
    requires ModifyPosition(table, pool, protocol, lower, upper, 0, timestamp).Ok?
    ensures var m := ModifyPosition(table, pool, protocol, lower, upper, 0, timestamp).value; m.amount0 == 0 && m.amount1 == 0
  {}

  lemma BurnAndCreditUnfolds(l: Ledger, i: nat, liquidity: nat, l': Ledger, amount0: nat, amount1: nat)
    returns (m: Modified, p: PersonalPosition)
    requires LiquidityInv(l) && NamedSlots(l) && DecreaseOp !in l.pool.disabled
    requires i < |l.personals| && l.personals[i].protocol < |l.protocols|
    requires BurnAndCredit(l, i, liquidity) == Ok((l', amount0, amount1))
    ensures Burnt(l, i, liquidity, m, p, l') && amount0 == -m.amount0 && amount1 == -m.amount1
  {
    hide ModifyPosition, BurnLiquidity, Credit, LiquidityInv, NamedSlots, Modifies;
    var j := l.personals[i].protocol;
    var burnt := BurnLiquidity(l, j, liquidity).value.0;
    m := BurnParts(l, j, liquidity, burnt, amount0, amount1);
    if liquidity == 0 {
      ZeroModifyMovesNoTokens(l.table, l.pool, l.protocols[j], TickOf(l.ticks, l.protocols[j].tickLower),
                              TickOf(l.ticks, l.protocols[j].tickUpper), l.now);
    }
    BurnFindsNamedTicks(l, j, liquidity, l.now, m);
    p := Credit(l.personals[i], burnt.protocols[j].growthInside).value;
    CreditKeepsLiquidity(l.personals[i], burnt.protocols[j].growthInside);
  }

  /** The personal positions play no part in a move of liquidity. */
  lemma MovedWithPersonal(l1: Ledger, l2: Ledger, j: nat, delta: int, i: nat, p: PersonalPosition)
    requires j < |l1.protocols| && Moved(l1, l2, j, delta) && i < |l1.personals|
    ensures Moved(WithPersonal(l1, i, p), WithPersonal(l2, i, p), j, delta)
  {}

  /** Taking liquidity out of a range whose owners gave it up first. */
  lemma BurnKeepsClaims(l1: Ledger, l2: Ledger, j: nat, liquidity: nat)
    requires ClaimsInv(l1) && j < |l1.protocols| && Moved(l1, l2, j, 0 - liquidity)
    requires Held(l1.personals, j) + liquidity <= l1.protocols[j].liquidity
    ensures ClaimsInv(l2)
  {
    MovedKeepsTotals(l1, l2, j, 0 - liquidity);
    MovedKeepsSlots(l1, l2, j, 0 - liquidity);
    forall k | 0 <= k < |l2.protocols| ensures Held(l2.personals, k) <= l2.protocols[k].liquidity {
      assert Held(l1.personals, k) <= l1.protocols[k].liquidity;
    }
    MovedKeepsClaims(l1, l2, j, 0 - liquidity);
  }

  lemma GivenUpThenBurnt(l1: Ledger, l2: Ledger, i: nat, inside: Five, p: PersonalPosition, liquidity: nat)
    requires ClaimsInv(l1) && i < |l1.personals| && liquidity <= l1.personals[i].liquidity
    requires RecordsGrowth(l1, l1.personals[i], inside) && Credit(l1.personals[i], inside) == Ok(p)
    requires Moved(l1, l2, l1.personals[i].protocol, 0 - liquidity)
    ensures ClaimsInv(WithPersonal(l2, i, p.(liquidity := l1.personals[i].liquidity - liquidity)))
  {
    var j := l1.personals[i].protocol;
    var p' := p.(liquidity := l1.personals[i].liquidity - liquidity);
    CreditedKeepsClaims(l1, l1, i, inside, p, p'.liquidity);
    MovedWithPersonal(l1, l2, j, 0 - liquidity, i, p');
    CreditKeepsLiquidity(l1.personals[i], inside);
    HeldPoint(l1.personals, i, p', j);
    BurnKeepsClaims(WithPersonal(l1, i, p'), WithPersonal(l2, i, p'), j, liquidity);
  }

  lemma BurntKeepsClaims(l: Ledger, i: nat, liquidity: nat, m: Modified, p: PersonalPosition, l': Ledger)
    requires Inv(l) && i < |l.personals| && l.personals[i].protocol < |l.protocols| && Burnt(l, i, liquidity, m, p, l')
    ensures ClaimsInv(l')
    ensures UpdateRewardInfos(l.pool, l.now).Ok?
    ensures Moved(WithRewards(l, l.now), StoreModified(l, l.personals[i].protocol, m), l.personals[i].protocol, 0 - liquidity)
  {
    hide StructureInv, HoldingsInv, AccrualInv, ClaimsCovered, PriceInv, VaultsInv, ConfigInv, TotalsFit, Moved, Modifies,
      ModifyPosition, Credit, UpdateRewardInfos, StoreModified, RangeGrowth;
    var j := l.personals[i].protocol;
    WithRewardsKeepsInv(l, l.now);
    ModifyMoves(l, j, 0 - liquidity, l.now, m);
    ModifyRecordsGrowth(l, j, 0 - liquidity, l.now, m);
    var l1 := WithRewards(l, l.now);
    assert l1.protocols[j] == l.protocols[j];
    GivenUpThenBurnt(l1, StoreModified(l, j, m), i, m.protocol.growthInside, p, liquidity);
  }

  /** What the remaining parts of the invariant look at. */
  predicate SameFrame(l: Ledger, l': Ledger) {
    && l'.table == l.table && l'.config == l.config && l'.pool.sqrtPrice == l.pool.sqrtPrice
    && l'.pool.tickCurrent == l.pool.tickCurrent && l'.pool.total == l.pool.total
  }

  lemma ReassembleOwing(l: Ledger, l': Ledger, out0: int, out1: int)
    requires PriceInv(l) && ConfigInv(l.config) && TotalsFit(l.pool)
    requires SameFrame(l, l') && ClaimsInv(l') && VaultsHold(l', out0, out1)
    ensures InvOwing(l', out0, out1)
  {}

  lemma MovedKeepsFrame(l1: Ledger, l2: Ledger, j: nat, delta: int)
    requires j < |l1.protocols| && Moved(l1, l2, j, delta)
    ensures SameFrame(l1, l2)
  {}

  lemma SameUnits(l: Ledger, l': Ledger, p: ProtocolPosition)
    requires ValidTable(l.table) && MIN_TICK <= p.tickLower < p.tickUpper <= MAX_TICK
    requires l'.table == l.table && l'.pool.sqrtPrice == l.pool.sqrtPrice
    ensures UnitOf(l', p, 0) == UnitOf(l, p, 0) && UnitOf(l', p, 1) == UnitOf(l, p, 1)
  {}

  /** Burning in the state with its rewards brought up to date. */
  lemma BurntVaults(l: Ledger, j: nat, liquidity: nat, m: Modified)
    requires Inv(l) && j < |l.protocols| && Modifies(l, j, 0 - liquidity, l.now, m)
    requires liquidity == 0 ==> m.amount0 == 0 && m.amount1 == 0
    requires UpdateRewardInfos(l.pool, l.now).Ok? && Moved(WithRewards(l, l.now), StoreModified(l, j, m), j, 0 - liquidity)
    requires ValidRanges(StoreModified(l, j, m))
    ensures ValidTable(StoreModified(l, j, m).table) && VaultsHold(StoreModified(l, j, m), -m.amount0, -m.amount1)
    ensures SameFrame(WithRewards(l, l.now), StoreModified(l, j, m))
  {
    hide LiquidityInv, NamedSlots, GrowthInv, HoldingsInv, AccrualInv, ClaimsCovered, VaultSolvent, ConfigInv, TotalsFit,
      Moved, Modifies, ModifyPosition, UpdateRewardInfos, Backing, UnitOf, Covers, StoreModified;
    var l1 := WithRewards(l, l.now);
    WithRewardsKeepsInv(l, l.now);
    if liquidity > 0 {
      ModifyCovers(l, j, 0 - liquidity, l.now, m);
      SameUnits(l, l1, l.protocols[j]);
    }
    MovedKeepsFrame(l1, StoreModified(l, j, m), j, 0 - liquidity);
    BurnFreesAmounts(l1, StoreModified(l, j, m), j, liquidity, -m.amount0, -m.amount1);
  }

  lemma BurntHolds(l: Ledger, i: nat, liquidity: nat, m: Modified, p: PersonalPosition, l': Ledger)
    requires Inv(l) && i < |l.personals| && l.personals[i].protocol < |l.protocols| && Burnt(l, i, liquidity, m, p, l')
    ensures InvOwing(l', -m.amount0, -m.amount1)
  {
    hide LiquidityInv, NamedSlots, GrowthInv, HoldingsInv, AccrualInv, ClaimsCovered, VaultSolvent, ConfigInv, TotalsFit,
      Moved, Modifies, ModifyPosition, Credit, UpdateRewardInfos, Backing, StoreModified;
    var j := l.personals[i].protocol;
    BurntKeepsClaims(l, i, liquidity, m, p, l');
    var l1, l2 := WithRewards(l, l.now), StoreModified(l, j, m);
    WithRewardsKeepsInv(l, l.now);
    MovedKeepsSlots(l1, l2, j, 0 - liquidity);
    BurntVaults(l, j, liquidity, m);
    SameBacking(l2, l');
    ReassembleOwing(l1, l', -m.amount0, -m.amount1);
  }

  // -----------------------------------------------------------------------------------------
  // Collecting

  lemma {:induction false} ShareNonNegative(n: nat, unit: real)
    requires 0.0 <= unit
    ensures 0.0 <= Share(n, unit)
  {
    if n > 0 { ShareNonNegative(n - 1, unit); }
  }

  lemma InverseFalls(x: nat, y: nat)
    requires 0 < x <= y
    ensures Inverse(y) <= Inverse(x)
  {
    var u, v := Inverse(x), Inverse(y);
    assert 0.0 <= v;
    assert v * x as real <= v * y as real;
    RealCancel(v, u, x as real);
  }

  lemma UnitNonNegative(token: int, x: nat, low: nat, high: nat)
    requires 0 < low <= high
    ensures 0.0 <= Unit(token, x, low, high)
  {
    InverseFalls(Clamp(x, low, high), high);
  }

  lemma {:induction false} RealSumToNonNegative(s: seq<real>, n: nat)
    requires n <= |s| && forall k :: 0 <= k < n ==> 0.0 <= s[k]
    ensures 0.0 <= RealSumTo(s, n)
  {
    if n > 0 { RealSumToNonNegative(s, n - 1); }
  }

  lemma BackingNonNegative(l: Ledger, token: int)
    requires ValidTable(l.table) && ValidRanges(l)
    ensures 0.0 <= RealSum(Backing(l, token))
  {
    forall j | 0 <= j < |l.protocols| ensures 0.0 <= Backing(l, token)[j] {
      var p := l.protocols[j];
      PriceIsMonotone(l.table, p.tickLower, p.tickUpper);
      UnitNonNegative(token, l.pool.sqrtPrice, Price(l.table, p.tickLower), Price(l.table, p.tickUpper));
      ShareNonNegative(p.liquidity, UnitOf(l, p, token));
    }
    RealSumToNonNegative(Backing(l, token), |l.protocols|);
  }

  lemma UnclaimedNonNegative(l: Ledger, c: int)
    requires ValidRanges(l) && ClaimsCovered(l) && 0 <= c < 5
    ensures 0 <= Unclaimed(l.pool, c)
  {
    assert ChannelSolvent(l, c);
    forall k | 0 <= k < |l.personals| ensures 0 <= Claims(l, c)[k] {
      var p := l.personals[k];
      if p.liquidity > 0 { MulLe(0, p.liquidity, Uncredited(l, p, c)); }
    }
    SumToNonNegative(Claims(l, c), |l.personals|);
  }

  lemma HoldingsFrame(l: Ledger, l': Ledger, i: nat)
    requires HoldingsInv(l) && i < |l.personals| && l'.protocols == l.protocols
    requires |l'.personals| == |l.personals| && l'.personals == l.personals[i := l'.personals[i]]
    requires l'.personals[i].protocol == l.personals[i].protocol && l'.personals[i].liquidity == l.personals[i].liquidity
    ensures HoldingsInv(l')
  {
    forall k | 0 <= k < |l'.protocols| ensures Held(l'.personals, k) <= l'.protocols[k].liquidity {
      HeldPoint(l.personals, i, l'.personals[i], k);
      assert Held(l.personals, k) <= l.protocols[k].liquidity;
    }
  }

  lemma ClaimKeepsClaimsInv(l: Ledger, i: nat, c: int, amount: nat, l': Ledger)
    requires ClaimsInv(l) && i < |l.personals| && 0 <= c < 5 && Claim(l, i, c, amount) == Ok(l')
    ensures ClaimsInv(l')
  {
    hide AccrualInv, ClaimsCovered, HoldingsInv;
    ClaimKeepsClaims(l, i, c, amount);
    HoldingsFrame(l, l', i);
  }

  /** A claim moves an amount from what the channel holds to what the vault has yet to pay. */
  lemma ClaimKeepsOwing(l: Ledger, i: nat, c: int, amount: nat, l': Ledger, out0: int, out1: int)
    requires InvOwing(l, out0, out1) && i < |l.personals| && 0 <= c < 5 && Claim(l, i, c, amount) == Ok(l')
    ensures InvOwing(l', out0 + (if c == 0 then amount else 0), out1 + (if c == 1 then amount else 0))
    ensures SameFrame(l, l') && l'.vaults == l.vaults && |l'.personals| == |l.personals|
    ensures l'.personals[i].owed == l.personals[i].owed[c := l.personals[i].owed[c] - amount]
    ensures l'.pool.claimed == l.pool.claimed[c := l.pool.claimed[c] + amount] && l'.pool.disabled == l.pool.disabled
    ensures l'.pool.rewards == l.pool.rewards
  {
    ClaimKeepsClaimsInv(l, i, c, amount, l');
    assert VaultsHold(l', out0 + (if c == 0 then amount else 0), out1 + (if c == 1 then amount else 0)) by {
      hide AccrualInv, ClaimsCovered, HoldingsInv, LiquidityInv, NamedSlots, GrowthInv, PriceInv, TotalsFit, ConfigInv;
      assert ValidTable(l.table) by { UnfoldPrice(l); }
      SameBacking(l, l');
    }
    ReassembleOwing(l, l', out0 + (if c == 0 then amount else 0), out1 + (if c == 1 then amount else 0));
  }

  lemma UnfoldPrice(l: Ledger)
    requires PriceInv(l)
    ensures ValidTable(l.table)
  {}

  /** A position can always claim all that it is owed. */
  lemma OwedIsClaimable(l: Ledger, i: nat, c: int, amount: nat)
    requires ClaimsInv(l) && TotalsFit(l.pool) && i < |l.personals| && 0 <= c < 5
    requires amount <= l.personals[i].owed[c]
    ensures Claim(l, i, c, amount).Ok?
    ensures 0 <= Unclaimed(l.pool, c) && l.personals[i].owed[c] <= Unclaimed(l.pool, c)
  {
    OwedIsCovered(l, i, c);
  }

  /** The guard in front of the fee payment never fires, and the fees join what is to be paid. */
  lemma FeesAreCollectable(l: Ledger, i: nat, out0: nat, out1: nat)
    requires InvOwing(l, out0, out1) && i < |l.personals|
    ensures CollectFees(l, i).Ok?
    ensures var (l', fee0, fee1) := CollectFees(l, i).value;
            InvOwing(l', out0 + fee0, out1 + fee1) && |l'.personals| == |l.personals| && l'.vaults == l.vaults &&
            (if CollectFeeOp in l.pool.disabled then fee0 == fee1 == 0
             else fee0 == l.personals[i].owed[0] && fee1 == l.personals[i].owed[1])
  {
    hide AccrualInv, ClaimsCovered, HoldingsInv, StructureInv, PriceInv, ConfigInv, VaultsHold;
    if CollectFeeOp !in l.pool.disabled {
      var fee0, fee1 := l.personals[i].owed[0], l.personals[i].owed[1];
      OwedIsClaimable(l, i, 0, fee0);
      OwedIsClaimable(l, i, 1, fee1);
      var after0 := Claim(l, i, 0, fee0).value;
      ClaimKeepsOwing(l, i, 0, fee0, after0, out0, out1);
      OwedIsClaimable(after0, i, 1, fee1);
      ClaimKeepsOwing(after0, i, 1, fee1, Claim(after0, i, 1, fee1).value, out0 + fee0, out1);
    }
  }

  /** The vaults can always pay what they hold beyond their backing. */
  lemma PayOutSucceeds(l: Ledger, out0: nat, out1: nat)
    requires InvOwing(l, out0, out1)
    ensures PayOut(l, out0, out1).Ok? && Inv(PayOut(l, out0, out1).value)
    ensures PayOut(l, out0, out1).value.personals == l.personals
    ensures PayOut(l, out0, out1).value.vaults == [l.vaults[0] - out0, l.vaults[1] - out1]
  {
    BackingNonNegative(l, 0);
    BackingNonNegative(l, 1);
    UnclaimedNonNegative(l, 0);
    UnclaimedNonNegative(l, 1);
    var l' := PayOut(l, out0, out1).value;
    ClaimsFrame(l, l');
    SameBacking(l, l');
  }

  /** Rates within their bounds, switched-off operations and the reward vaults play no part. */
  lemma SettingsFrame(l: Ledger, config: AmmConfig, disabled: set<Operation>, rewardVaults: Three)
    requires Inv(l) && ConfigInv(config)
    ensures Inv(l.(config := config, pool := l.pool.(disabled := disabled), rewardVaults := rewardVaults))
  {
    hide LiquidityInv, NamedSlots, HoldingsInv, AccrualInv, ClaimsCovered, ConfigInv, VaultSolvent, ValidTable;
    var l' := l.(config := config, pool := l.pool.(disabled := disabled), rewardVaults := rewardVaults);
    ClaimsFrame(l, l');
    VaultsFrame(l, l');
  }

  lemma CheckUnclaimedFeesSucceeds(l: Ledger)
    requires Inv(l)
    ensures CheckUnclaimedFees(l).Ok? && Inv(CheckUnclaimedFees(l).value)
    ensures CheckUnclaimedFees(l).value.personals == l.personals && CheckUnclaimedFees(l).value.vaults == l.vaults
  {
    UnclaimedNonNegative(l, 0);
    UnclaimedNonNegative(l, 1);
    SettingsFrame(l, l.config, CheckUnclaimedFees(l).value.pool.disabled, l.rewardVaults);
  }

  lemma RewardIsCollectable(l: Ledger, i: nat, k: nat)
    requires Inv(l) && i < |l.personals| && k < REWARD_NUM
    ensures CollectReward(l, i, k).Ok?
    ensures Inv(CollectReward(l, i, k).value) && |CollectReward(l, i, k).value.personals| == |l.personals|
    ensures CollectReward(l, i, k).value.vaults == l.vaults
  {
    hide AccrualInv, ClaimsCovered, HoldingsInv, StructureInv, PriceInv, ConfigInv, VaultsHold, VaultsInv, TotalsFit;
    var owed := l.personals[i].owed[2 + k];
    OwingNothingIsInv(l);
    if owed > 0 {
      var amount := Min(owed, l.rewardVaults[k]);
      OwedIsClaimable(l, i, 2 + k, amount);
      var claimed := Claim(l, i, 2 + k, amount).value;
      ClaimKeepsOwing(l, i, 2 + k, amount, claimed, 0, 0);
      OwingNothingIsInv(claimed);
      SettingsFrame(claimed, claimed.config, claimed.pool.disabled, l.rewardVaults[k := l.rewardVaults[k] - amount]);
    }
  }

  /** Whatever rewards a position is owed can be collected. */
  lemma {:induction false} RewardsAreCollectable(l: Ledger, i: nat, k: nat)
    requires Inv(l) && i < |l.personals| && k <= REWARD_NUM
    ensures CollectRewardsFrom(l, i, k).Ok? && Inv(CollectRewardsFrom(l, i, k).value)
    ensures CollectRewardsFrom(l, i, k).value.vaults == l.vaults
    decreases REWARD_NUM - k
  {
    hide Inv;
    if k < REWARD_NUM && l.pool.rewards[k].initialized {
      RewardIsCollectable(l, i, k);
      RewardsAreCollectable(CollectReward(l, i, k).value, i, k + 1);
    }
  }

  // -----------------------------------------------------------------------------------------
  // The whole instruction

  lemma BurnAndCreditKeeps(l: Ledger, i: nat, liquidity: nat, l': Ledger, amount0: nat, amount1: nat)
    requires Inv(l) && i < |l.personals| && l.personals[i].protocol < |l.protocols|
    requires BurnAndCredit(l, i, liquidity) == Ok((l', amount0, amount1))
    ensures InvOwing(l', amount0, amount1) && |l'.personals| == |l.personals|
  {
    hide InvOwing, BurnLiquidity, Modifies, Credit, PriceInv, VaultsInv, HoldingsInv, AccrualInv, ClaimsCovered, ConfigInv,
      TotalsFit, ValidRanges, LiquidityInv, NamedSlots, GrowthInv;
    if DecreaseOp in l.pool.disabled {
      OwingNothingIsInv(l);
    } else {
      var m, p := BurnAndCreditUnfolds(l, i, liquidity, l', amount0, amount1);
      BurntHolds(l, i, liquidity, m, p, l');
    }
  }

  /** What is left of a decrease once the burn succeeded. */
  ghost predicate Payable(l: Ledger, burnt: Ledger, i: nat, liquidity: nat, min0: nat, min1: nat, amount0: nat, amount1: nat)
    requires i < |l.personals| && i < |burnt.personals|
  {
    && (liquidity > 0 ==> amount0 >= min0 && amount1 >= min1)
    && (CollectFees(burnt, i).Ok? ==>
          amount0 + CollectFees(burnt, i).value.1 < U64_LIMIT && amount1 + CollectFees(burnt, i).value.2 < U64_LIMIT)
  }

  /** After a successful burn nothing but the caller's own limits and the u64 range of the two
      payments can stop a decrease; the payments leave the vaults, and the invariant is kept. */
  lemma DecreaseAfterBurn(l: Ledger, burnt: Ledger, i: nat, liquidity: nat, min0: nat, min1: nat, amount0: nat, amount1: nat)
    requires Inv(l) && i < |l.personals| && l.personals[i].protocol < |l.protocols|
    requires liquidity <= l.personals[i].liquidity && !({DecreaseOp, CollectFeeOp, CollectRewardOp} <= l.pool.disabled)
    requires BurnAndCredit(l, i, liquidity) == Ok((burnt, amount0, amount1))
    requires InvOwing(burnt, amount0, amount1) && i < |burnt.personals|
    ensures var r := DecreaseLiquidity(l, i, liquidity, min0, min1);
            && (r.Ok? <==> Payable(l, burnt, i, liquidity, min0, min1, amount0, amount1))
            && (r.Ok? ==> Inv(r.value) && CollectFees(burnt, i).Ok?)
            && (r.Ok? ==> var (_, fee0, fee1) := CollectFees(burnt, i).value;
                          r.value.vaults == [burnt.vaults[0] - (amount0 + fee0), burnt.vaults[1] - (amount1 + fee1)])
  {
    hide Inv, InvOwing, BurnAndCredit, CollectFees, PayOut, CheckUnclaimedFees, CollectRewardsFrom;
    FeesAreCollectable(burnt, i, amount0, amount1);
    var (paid, fee0, fee1) := CollectFees(burnt, i).value;
    PayOutSucceeds(paid, amount0 + fee0, amount1 + fee1);
    var sent := PayOut(paid, amount0 + fee0, amount1 + fee1).value;
    CheckUnclaimedFeesSucceeds(sent);
    RewardsAreCollectable(CheckUnclaimedFees(sent).value, i, 0);
  }

  lemma DecreaseKeepsInv(l: Ledger, i: nat, liquidity: nat, min0: nat, min1: nat, l': Ledger)
    requires Inv(l) && i < |l.personals| && l.personals[i].protocol < |l.protocols|
    requires DecreaseLiquidity(l, i, liquidity, min0, min1) == Ok(l')
    ensures Inv(l')
  {
    hide Inv, InvOwing, BurnAndCredit, CollectFees, PayOut, CheckUnclaimedFees, CollectRewardsFrom;
    var (burnt, amount0, amount1) := BurnAndCredit(l, i, liquidity).value;
    BurnAndCreditKeeps(l, i, liquidity, burnt, amount0, amount1);
    DecreaseAfterBurn(l, burnt, i, liquidity, min0, min1, amount0, amount1);
  }

  // -----------------------------------------------------------------------------------------
  // Protocol and fund fees

  /** Fees set aside can always be withdrawn, up to what was set aside. */
  lemma CollectProtocolFeeSucceeds(l: Ledger, requested0: nat, requested1: nat)
    requires Inv(l)
    ensures var r := CollectProtocolFee(l, requested0, requested1); r.Ok? && Inv(r.value)
  {
    hide Inv, InvOwing, PayOut, CheckUnclaimedFees;
    var amount0, amount1 := Min(requested0, l.pool.protocolFees[0]), Min(requested1, l.pool.protocolFees[1]);
    var released := l.(pool := l.pool.(protocolFees := [l.pool.protocolFees[0] - amount0, l.pool.protocolFees[1] - amount1]));
    ReleasedFeesAreOwed(l, released, amount0, amount1);
    PayOutSucceeds(released, amount0, amount1);
    CheckUnclaimedFeesSucceeds(PayOut(released, amount0, amount1).value);
  }

  lemma CollectFundFeeSucceeds(l: Ledger, requested0: nat, requested1: nat)
    requires Inv(l)
    ensures var r := CollectFundFee(l, requested0, requested1); r.Ok? && Inv(r.value)
  {
    hide Inv, InvOwing, PayOut, CheckUnclaimedFees;
    var amount0, amount1 := Min(requested0, l.pool.fundFees[0]), Min(requested1, l.pool.fundFees[1]);
    var released := l.(pool := l.pool.(fundFees := [l.pool.fundFees[0] - amount0, l.pool.fundFees[1] - amount1]));
    ReleasedFeesAreOwed(l, released, amount0, amount1);
    PayOutSucceeds(released, amount0, amount1);
    CheckUnclaimedFeesSucceeds(PayOut(released, amount0, amount1).value);
  }

  lemma ReleasedFeesAreOwed(l: Ledger, l': Ledger, amount0: nat, amount1: nat)
    requires Inv(l) && l' == l.(pool := l.pool.(protocolFees := l'.pool.protocolFees, fundFees := l'.pool.fundFees))
    requires Principal(l', 0) == Principal(l, 0) + amount0 && Principal(l', 1) == Principal(l, 1) + amount1
    ensures InvOwing(l', amount0, amount1)
  {
    hide AccrualInv, ClaimsCovered, HoldingsInv;
    ClaimsFrame(l, l');
    SameBacking(l, l');
  }
}
