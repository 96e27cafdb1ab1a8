/** What a decrease takes out, pays and records, figure by figure. */
module DecreaseOutcome {
  import opened Wrappers
  import opened FullMath
  import opened LiquidityMath
  import opened PoolTypes
  import opened TickGrowth
  import opened Ledger
  import opened Invariants
  import opened ClaimLemmas
  import opened PositionLemmas
  import opened Vaults
  import opened PositionSafety
  import opened DecreaseSafety
  import opened RewardOutcome
  import opened RoundTrips
  import opened PositionOutcome

  /** Owner `i`, credited with all that was earned up to now, gives up `liquidity`, and the range loses it: it is worth
      the two amounts at the current price, rounded down. */
  ghost predicate Burns(l: Ledger, i: nat, liquidity: nat, burnt: Ledger, amount0: int, amount1: int, updated: PoolState)
    requires ValidTable(l.table) && ValidRanges(l) && i < |l.personals| && l.personals[i].protocol < |l.protocols|
  {
    var p, j := l.personals[i], l.personals[i].protocol;
    && AmountsAt(l.pool.sqrtPrice, Price(l.table, l.protocols[j].tickLower), Price(l.table, l.protocols[j].tickUpper),
                 liquidity, amount0, amount1, false)
    && RangeChanged(l, burnt, j, 0 - liquidity, updated)
    && |burnt.personals| == |l.personals|
    && burnt == l.(pool := updated.(liquidity := burnt.pool.liquidity), ticks := burnt.ticks, protocols := burnt.protocols,
                   personals := l.personals[i := burnt.personals[i]])
    && burnt.personals[i].liquidity + liquidity == p.liquidity
    && CreditedAt(l.(pool := updated), p, burnt.personals[i])
  }

  lemma NothingIsFreed(x: nat, low: nat, high: nat)
    requires 0 < low < high
    ensures AmountsAt(x, low, high, 0, 0, 0, false)
  {
    var y := Inside(x, low, high);
    MulLt(0, high, y);
    assert 0 * Q64 * (high - y) == 0 && 0 * (y - low) == 0;
  }

  lemma FreedIs(l: Ledger, j: nat, liquidity: nat, m: Modified)
    requires Inv(l) && j < |l.protocols| && Modifies(l, j, 0 - liquidity, l.now, m) && (liquidity == 0 ==> m.amount0 == 0 && m.amount1 == 0)
    ensures ValidTable(l.table) && ValidRanges(l)
    ensures AmountsAt(l.pool.sqrtPrice, Price(l.table, l.protocols[j].tickLower), Price(l.table, l.protocols[j].tickUpper),
                      liquidity, -m.amount0, -m.amount1, false)
  {
    hide ClaimsInv, VaultsInv, TotalsFit, ConfigInv, Modifies, AmountsAt, GetDeltaAmountsSigned, ValidTable;
    RangesAreOrdered(l, j);
    TableIsFull(l.table);
    var p := l.protocols[j];
    var low, high := Price(l.table, p.tickLower), Price(l.table, p.tickUpper);
    if liquidity == 0 {
      PriceIsMonotone(l.table, p.tickLower, p.tickUpper);
      NothingIsFreed(l.pool.sqrtPrice, low, high);
    } else {
      EndsAreNamed(l, j);
      ModifyAmounts(l, j, 0 - liquidity, l.now, m);
      SignedAmountsAre(l, p.tickLower, p.tickUpper, 0 - liquidity, m.amount0, m.amount1);
    }
  }

  lemma EndsAreNamed(l: Ledger, j: nat)
    requires Inv(l) && j < |l.protocols|
    ensures var p := l.protocols[j];
            NamedTick(l.ticks, p.tickLower).tick == p.tickLower && NamedTick(l.ticks, p.tickUpper).tick == p.tickUpper
  {
    hide HoldingsInv, AccrualInv, ClaimsCovered, LiquidityInv, GrowthInv, VaultsInv, PriceInv;
    NamedEnd(l, l.protocols[j].tickLower);
    NamedEnd(l, l.protocols[j].tickUpper);
  }

  lemma BurnIs(l: Ledger, i: nat, liquidity: nat, m: Modified, p: PersonalPosition, burnt: Ledger) returns (updated: PoolState)
    requires Inv(l) && i < |l.personals| && l.personals[i].protocol < |l.protocols| && Burnt(l, i, liquidity, m, p, burnt)
    ensures ValidTable(l.table) && ValidRanges(l) && Burns(l, i, liquidity, burnt, -m.amount0, -m.amount1, updated)
    ensures UpdateRewardInfos(l.pool, l.now) == Ok(updated)
  {
    hide HoldingsInv, AccrualInv, ClaimsCovered, LiquidityInv, GrowthInv, NamedSlots, PriceInv, VaultsInv, TotalsFit, ConfigInv,
      Modifies, Credit, UpdateRewardInfos, AmountsAt, RangeChanged, CreditedAt;
    var j := l.personals[i].protocol;
    FreedIs(l, j, liquidity, m);
    updated := ModifiedIs(l, j, 0 - liquidity, m);
    RangeFrame(l, StoreModified(l, j, m), burnt, j, 0 - liquidity, updated);
    WithRewardsKeepsInv(l, l.now);
    ModifyRecordsGrowth(l, j, 0 - liquidity, l.now, m);
    var at := l.(pool := updated);
    CreditIsEarned(at, i, m.protocol.growthInside);
    CreditFrame(at, at, l.personals[i], p, burnt.personals[i]);
  }

  /** The first half of a decrease, done or switched off. */
  ghost predicate MayBurn(l: Ledger, i: nat, liquidity: nat, burnt: Ledger, amount0: int, amount1: int, updated: PoolState)
    requires ValidTable(l.table) && ValidRanges(l) && i < |l.personals| && l.personals[i].protocol < |l.protocols|
  {
    if DecreaseOp in l.pool.disabled then burnt == l && amount0 == amount1 == 0
    else Burns(l, i, liquidity, burnt, amount0, amount1, updated)
  }

  lemma MayBurnIs(l: Ledger, i: nat, liquidity: nat, burnt: Ledger, amount0: nat, amount1: nat) returns (updated: PoolState)
    requires Inv(l) && i < |l.personals| && l.personals[i].protocol < |l.protocols|
    requires BurnAndCredit(l, i, liquidity) == Ok((burnt, amount0, amount1))
    ensures ValidTable(l.table) && ValidRanges(l) && MayBurn(l, i, liquidity, burnt, amount0, amount1, updated)
    ensures DecreaseOp !in l.pool.disabled ==> UpdateRewardInfos(l.pool, l.now) == Ok(updated)
  {
    hide HoldingsInv, AccrualInv, ClaimsCovered, LiquidityInv, GrowthInv, NamedSlots, PriceInv, VaultsInv, TotalsFit, ConfigInv,
      Burnt, Burns, UpdateRewardInfos, BurnLiquidity, Credit;
    RangesAreOrdered(l, l.personals[i].protocol);
    updated := l.pool;
    if DecreaseOp !in l.pool.disabled {
      var m, p := BurnAndCreditUnfolds(l, i, liquidity, burnt, amount0, amount1);
      updated := BurnIs(l, i, liquidity, m, p, burnt);
    }
  }

  /** A burn moves no tokens, adds no owner and switches nothing off. */
  lemma BurnFrame(l: Ledger, i: nat, liquidity: nat, burnt: Ledger, amount0: int, amount1: int, updated: PoolState)
    requires ValidTable(l.table) && ValidRanges(l) && i < |l.personals| && l.personals[i].protocol < |l.protocols|
    requires MayBurn(l, i, liquidity, burnt, amount0, amount1, updated)
    ensures |burnt.personals| == |l.personals| && burnt.vaults == l.vaults && burnt.pool.disabled == l.pool.disabled
  {}

  // -----------------------------------------------------------------------------------------
  // Fees and the payment

  /** Fees `fee0` and `fee1` leave what owner `i` is owed and count as claimed. */
  predicate FeesClaimed(l: Ledger, paid: Ledger, i: nat, fee0: int, fee1: int)
    requires i < |l.personals|
  {
    && |paid.personals| == |l.personals|
    && paid.personals[i].owed == l.personals[i].owed[0 := paid.personals[i].owed[0]][1 := paid.personals[i].owed[1]]
    && paid.pool.claimed == l.pool.claimed[0 := paid.pool.claimed[0]][1 := paid.pool.claimed[1]]
    && paid.personals[i].owed[0] + fee0 == l.personals[i].owed[0] && paid.personals[i].owed[1] + fee1 == l.personals[i].owed[1]
    && paid.pool.claimed[0] == l.pool.claimed[0] + fee0 && paid.pool.claimed[1] == l.pool.claimed[1] + fee1
    && paid == l.(pool := l.pool.(claimed := paid.pool.claimed),
                  personals := l.personals[i := l.personals[i].(owed := paid.personals[i].owed)])
  }

  lemma CollectFeesIs(l: Ledger, i: nat, paid: Ledger, fee0: nat, fee1: nat)
    requires i < |l.personals| && CollectFees(l, i) == Ok((paid, fee0, fee1))
    ensures FeesClaimed(l, paid, i, fee0, fee1)
    ensures if CollectFeeOp in l.pool.disabled then fee0 == fee1 == 0
            else fee0 == l.personals[i].owed[0] && fee1 == l.personals[i].owed[1]
  {
    if CollectFeeOp in l.pool.disabled {
      assert paid == l && l.personals[i].owed == l.personals[i].owed[0 := l.personals[i].owed[0]][1 := l.personals[i].owed[1]];
      assert l.pool.claimed == l.pool.claimed[0 := l.pool.claimed[0]][1 := l.pool.claimed[1]];
    } else {
      assert paid.personals[i].owed == l.personals[i].owed[0 := 0][1 := 0];
    }
  }

  lemma BurnKeepsOwners(l: Ledger, i: nat, liquidity: nat)
    requires i < |l.personals| && l.personals[i].protocol < |l.protocols| && BurnAndCredit(l, i, liquidity).Ok?
    ensures |BurnAndCredit(l, i, liquidity).value.0.personals| == |l.personals|
  {
    hide ModifyPosition, Credit;
  }

  /** The parts of a successful decrease. */
  lemma DecreaseParts(l: Ledger, i: nat, liquidity: nat, min0: nat, min1: nat, l': Ledger)
    returns (burnt: Ledger, amount0: nat, amount1: nat, paid: Ledger, fee0: nat, fee1: nat, sent: Ledger, checked: Ledger)
    requires i < |l.personals| && l.personals[i].protocol < |l.protocols| && DecreaseLiquidity(l, i, liquidity, min0, min1) == Ok(l')
    ensures BurnAndCredit(l, i, liquidity) == Ok((burnt, amount0, amount1)) && |burnt.personals| == |l.personals|
    ensures liquidity > 0 ==> min0 <= amount0 && min1 <= amount1
    ensures CollectFees(burnt, i) == Ok((paid, fee0, fee1)) && |paid.personals| == |l.personals|
    ensures amount0 + fee0 <= paid.vaults[0] && amount1 + fee1 <= paid.vaults[1]
    ensures sent == paid.(vaults := [paid.vaults[0] - (amount0 + fee0), paid.vaults[1] - (amount1 + fee1)])
    ensures CheckUnclaimedFees(sent) == Ok(checked) && |checked.personals| == |l.personals|
    ensures if CollectRewardOp !in checked.pool.disabled then CollectRewardsFrom(checked, i, 0) == Ok(l') else l' == checked
  {
    hide BurnAndCredit, CollectFees, CheckUnclaimedFees, CollectRewardsFrom, FeesClaimed;
    var b := BurnAndCredit(l, i, liquidity).value;
    burnt, amount0, amount1 := b.0, b.1, b.2;
    BurnKeepsOwners(l, i, liquidity);
    var c := CollectFees(burnt, i).value;
    paid, fee0, fee1 := c.0, c.1, c.2;
    CollectFeesIs(burnt, i, paid, fee0, fee1);
    ClaimFrame(burnt, paid, i, fee0, fee1);
    sent := PayOut(paid, amount0 + fee0, amount1 + fee1).value;
    checked := CheckUnclaimedFees(sent).value;
    CheckIs(sent);
  }

  lemma ClaimFrame(l: Ledger, paid: Ledger, i: nat, fee0: int, fee1: int)
    requires i < |l.personals| && FeesClaimed(l, paid, i, fee0, fee1)
    ensures |paid.personals| == |l.personals| && paid.vaults == l.vaults && paid.pool.disabled == l.pool.disabled
  {}

  /** A successful `decrease_liquidity`. What is burnt and what is owed in fees, the newly credited included, is paid out
      of the vaults; each part is nothing where its operation is switched off. Collecting fees is switched off if the
      unclaimed ones then reach a vault, and the rewards owed are paid. */
  ghost predicate DecreaseDoes(l: Ledger, i: nat, liquidity: nat, min0: nat, min1: nat, l': Ledger,
                               burnt: Ledger, amount0: int, amount1: int, fee0: int, fee1: int,
                               updated: PoolState, claimed: Ledger, checked: Ledger)
    requires ValidTable(l.table) && ValidRanges(l) && i < |l.personals| && l.personals[i].protocol < |l.protocols|
  {
    && liquidity <= l.personals[i].liquidity
    && !(DecreaseOp in l.pool.disabled && CollectFeeOp in l.pool.disabled && CollectRewardOp in l.pool.disabled)
    && MayBurn(l, i, liquidity, burnt, amount0, amount1, updated)
    && (liquidity > 0 ==> min0 <= amount0 && min1 <= amount1)
    && |burnt.personals| == |claimed.personals| == |checked.personals| == |l.personals|
    && (if CollectFeeOp in l.pool.disabled then fee0 == fee1 == 0
        else fee0 == burnt.personals[i].owed[0] && fee1 == burnt.personals[i].owed[1])
    && FeesClaimed(burnt, claimed, i, fee0, fee1)
    && 0 <= amount0 + fee0 <= l.vaults[0] && 0 <= amount1 + fee1 <= l.vaults[1]
    && checked == claimed.(pool := claimed.pool.(disabled := checked.pool.disabled),
                           vaults := [l.vaults[0] - (amount0 + fee0), l.vaults[1] - (amount1 + fee1)])
    && checked.pool.disabled == (if FeesReachVault(l') then l.pool.disabled + {CollectFeeOp} else l.pool.disabled)
    && RewardsPaid(checked, l', i, CollectRewardOp !in l.pool.disabled)
  }

  lemma DecreaseIs(l: Ledger, i: nat, liquidity: nat, min0: nat, min1: nat, l': Ledger)
    returns (burnt: Ledger, amount0: int, amount1: int, fee0: int, fee1: int, updated: PoolState, claimed: Ledger, checked: Ledger)
    requires Inv(l) && i < |l.personals| && l.personals[i].protocol < |l.protocols|
    requires DecreaseLiquidity(l, i, liquidity, min0, min1) == Ok(l')
    ensures ValidTable(l.table) && ValidRanges(l)
    ensures DecreaseDoes(l, i, liquidity, min0, min1, l', burnt, amount0, amount1, fee0, fee1, updated, claimed, checked)
    ensures |l'.personals| == |l.personals|
  {
    hide Inv, BurnAndCredit, CollectFees, CheckUnclaimedFees, CollectRewardsFrom, MayBurn, FeesClaimed, FeesReachVault, RewardPaid;
    var sent;
    burnt, amount0, amount1, claimed, fee0, fee1, sent, checked := DecreaseParts(l, i, liquidity, min0, min1, l');
    updated := MayBurnIs(l, i, liquidity, burnt, amount0, amount1);
    BurnFrame(l, i, liquidity, burnt, amount0, amount1, updated);
    CollectFeesIs(burnt, i, claimed, fee0, fee1);
    ClaimFrame(burnt, claimed, i, fee0, fee1);
    CheckIs(sent);
    FeesReachFrame(sent, checked);
    RewardsArePaid(checked, i, CollectRewardOp !in checked.pool.disabled, l');
    FeesReachFrame(checked, l');
  }

  /** What an owner who leaves with `liquidity` receives of each token: its worth at the current price, rounded down, what
      was owed before, and what was earned since. Where fees are collected nothing of them stays owed. */
  lemma DecreasePays(l: Ledger, i: nat, liquidity: nat, min0: nat, min1: nat, l': Ledger) returns (amounts: Balances,
                     updated: PoolState)
    requires Inv(l) && i < |l.personals| && l.personals[i].protocol < |l.protocols|
    requires DecreaseLiquidity(l, i, liquidity, min0, min1) == Ok(l')
    ensures ValidTable(l.table) && ValidRanges(l) && |l'.personals| == |l.personals|
    ensures var range := l.protocols[l.personals[i].protocol];
            if DecreaseOp in l.pool.disabled then amounts == [0, 0]
            else AmountsAt(l.pool.sqrtPrice, Price(l.table, range.tickLower), Price(l.table, range.tickUpper), liquidity,
                           amounts[0], amounts[1], false) &&
                 RewardsUpdated(l.pool, updated, l.now)
    ensures forall k :: 0 <= k < 2 ==>
              var p, p' := l.personals[i], l'.personals[i];
              var earned := if DecreaseOp in l.pool.disabled then 0 else Earns(l.(pool := updated), p, k);
              if CollectFeeOp in l.pool.disabled then
                l.vaults[k] - l'.vaults[k] == amounts[k] && p'.owed[k] == p.owed[k] + earned && l'.pool.claimed[k] == l.pool.claimed[k]
              else
                && l.vaults[k] - l'.vaults[k] == amounts[k] + p.owed[k] + earned && p'.owed[k] == 0
                && l'.pool.claimed[k] == l.pool.claimed[k] + p.owed[k] + earned
  {
    hide Inv, AmountsAt, EndChanged, RewardUpdated, FeesReachVault, RewardPaid, Earns, RangeGrowth, DecreaseLiquidity;
    var burnt, amount0, amount1, fee0, fee1, u, claimed, checked := DecreaseIs(l, i, liquidity, min0, min1, l');
    amounts, updated := [amount0, amount1], u;
    forall k | 0 <= k < 2
      ensures l'.personals[i].owed[k] == checked.personals[i].owed[k] && l'.pool.claimed[k] == checked.pool.claimed[k]
    {
      assert l'.personals[i].owed[..2][k] == checked.personals[i].owed[..2][k];
      assert l'.pool.claimed[..2][k] == checked.pool.claimed[..2][k];
    }
  }
}
