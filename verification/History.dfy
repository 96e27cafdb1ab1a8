/** What every instruction does to the ranges and their owners, and what follows over whole runs: how
    far owners' liquidity falls short of their range's, and how the growth inside a range adds up. */
module History {
  import opened Wrappers
  import opened FullMath
  import opened LiquidityMath
  import opened PoolTypes
  import opened TickGrowth
  import opened Ledger
  import opened Sums
  import opened Invariants
  import opened ClaimLemmas
  import opened PositionLemmas
  import opened Vaults
  import opened PositionSafety
  import opened DecreaseSafety
  import opened OpenSafety
  import opened RewardAdmin
  import opened SwapPath
  import opened SwapLedger
  import opened SwapSafety
  import opened Machine

  // -----------------------------------------------------------------------------------------
  // What an instruction leaves alone

  predicate SameOwners(before: seq<PersonalPosition>, after: seq<PersonalPosition>) {
    && |after| == |before|
    && forall i :: 0 <= i < |before| ==> after[i].protocol == before[i].protocol && after[i].liquidity == before[i].liquidity
  }

  /** Ranges, ticks, the current tick and everybody's liquidity stand. */
  predicate Stands(l: Ledger, l': Ledger) {
    && l'.ticks == l.ticks && l'.protocols == l.protocols && l'.pool.tickCurrent == l.pool.tickCurrent
    && SameOwners(l.personals, l'.personals)
  }

  lemma ClaimStands(l: Ledger, i: nat, c: int, amount: nat)
    requires i < |l.personals| && 0 <= c < 5 && Claim(l, i, c, amount).Ok?
    ensures Stands(l, Claim(l, i, c, amount).value)
    ensures Claim(l, i, c, amount).value.pool.growthGlobal == l.pool.growthGlobal
  {}

  lemma CollectFeesStands(l: Ledger, i: nat)
    requires i < |l.personals| && CollectFees(l, i).Ok?
    ensures Stands(l, CollectFees(l, i).value.0) && CollectFees(l, i).value.0.pool.growthGlobal == l.pool.growthGlobal
  {
    hide Claim;
    if CollectFeeOp !in l.pool.disabled {
      var fee0, fee1 := l.personals[i].owed[0], l.personals[i].owed[1];
      ClaimStands(l, i, 0, fee0);
      ClaimStands(Claim(l, i, 0, fee0).value, i, 1, fee1);
    }
  }

  lemma {:induction false} CollectRewardsStands(l: Ledger, i: nat, k: nat)
    requires i < |l.personals| && k <= REWARD_NUM && CollectRewardsFrom(l, i, k).Ok?
    ensures Stands(l, CollectRewardsFrom(l, i, k).value)
    ensures CollectRewardsFrom(l, i, k).value.pool.growthGlobal == l.pool.growthGlobal
    decreases REWARD_NUM - k
  {
    hide Claim;
    if k < REWARD_NUM && l.pool.rewards[k].initialized {
      if l.personals[i].owed[2 + k] > 0 { ClaimStands(l, i, 2 + k, Min(l.personals[i].owed[2 + k], l.rewardVaults[k])); }
      CollectRewardsStands(CollectReward(l, i, k).value, i, k + 1);
    }
  }

  lemma UpdateStands(l: Ledger, timestamp: nat)
    requires UpdateRewardInfos(l.pool, timestamp).Ok?
    ensures Stands(l, WithRewards(l, timestamp))
  {
    hide UpdateRewardInfos;
    InfosOnlyGrow(l.pool, timestamp);
  }

  /** The instructions on fees, rewards and settings touch no range and no holding. */
  lemma OthersStand(l: Ledger, op: Instruction, l': Ledger)
    requires PoolInv(l) && Apply(l, op) == Ok(l') && !op.Open? && !op.Increase? && !op.Decrease? && !op.Trade?
    ensures Stands(l, l')
  {
    hide PoolInv, UpdateRewardInfos, NormalUpdate, AdminUpdate, FundingCeil;
    if UpdateRewardInfos(l.pool, l.now).Ok? { UpdateStands(l, l.now); }
  }

  lemma BurnKeepsCount(l: Ledger, i: nat, liquidity: nat)
    requires i < |l.personals| && l.personals[i].protocol < |l.protocols| && BurnAndCredit(l, i, liquidity).Ok?
    ensures |BurnAndCredit(l, i, liquidity).value.0.personals| == |l.personals|
  {
    hide ModifyPosition, Credit;
  }

  /** What remains of a decrease after the burn. */
  lemma PaymentStands(l: Ledger, i: nat, liquidity: nat, min0: nat, min1: nat)
    requires i < |l.personals| && l.personals[i].protocol < |l.protocols| && DecreaseLiquidity(l, i, liquidity, min0, min1).Ok?
    ensures BurnAndCredit(l, i, liquidity).Ok?
    ensures var burnt, l' := BurnAndCredit(l, i, liquidity).value.0, DecreaseLiquidity(l, i, liquidity, min0, min1).value;
            Stands(burnt, l') && l'.pool.growthGlobal == burnt.pool.growthGlobal
  {
    hide BurnAndCredit, CollectFees, CollectRewardsFrom;
    var (burnt, amount0, amount1) := BurnAndCredit(l, i, liquidity).value;
    BurnKeepsCount(l, i, liquidity);
    CollectFeesStands(burnt, i);
    var (paid, fee0, fee1) := CollectFees(burnt, i).value;
    var checked := CheckUnclaimedFees(PayOut(paid, amount0 + fee0, amount1 + fee1).value).value;
    if CollectRewardOp !in checked.pool.disabled { CollectRewardsStands(checked, i, 0); }
  }

  // -----------------------------------------------------------------------------------------
  // Owners and their range

  /** What range `j` holds beyond its owners' positions. */
  ghost function Spare(l: Ledger, j: nat): int {
    if j < |l.protocols| then l.protocols[j].liquidity - Held(l.personals, j) else 0
  }

  /** Owners hold all of every range. */
  ghost predicate FullyOwned(l: Ledger) {
    forall j: nat :: Spare(l, j) == 0
  }

  /** The one instruction that leaves liquidity without an owner. */
  predicate MintsForBudget(op: Instruction) {
    op.Increase? && op.liquidity == 0
  }

  /** The liquidity a successful instruction gives to range `j` and to no owner: all of a mint for a budget. */
  function Unowned(l: Ledger, op: Instruction, j: nat): nat {
    if MintsForBudget(op) && op.position < |l.personals| && l.personals[op.position].protocol == j && j < |l.protocols| then
      var bought := RequestedLiquidity(l.table, l.pool.sqrtPrice, l.protocols[j], 0, op.max0, op.max1, op.baseFlag);
      if bought.Ok? then bought.value else 0
    else 0
  }

  lemma SameOwnersHold(before: seq<PersonalPosition>, after: seq<PersonalPosition>, j: int)
    requires SameOwners(before, after)
    ensures Held(after, j) == Held(before, j)
  {
    assert Owners(after) == Owners(before);
    assert Shares(after) == Shares(before);
  }

  lemma StandingKeepsSpare(l: Ledger, l': Ledger, j: nat)
    requires Stands(l, l')
    ensures Spare(l', j) == Spare(l, j)
  {
    SameOwnersHold(l.personals, l'.personals, j);
  }

  lemma ModifyRaises(l: Ledger, k: nat, delta: int, m: Modified)
    requires k < |l.protocols| && Modifies(l, k, delta, l.now, m)
    ensures m.protocol.liquidity == l.protocols[k].liquidity + delta
  {
    hide ModifyPosition, UpdateRewardInfos, UpdateTickUnlessZero, GrowthInside;
    var p := l.protocols[k];
    var updated, a, flippedA, b, flippedB :=
      ModifyUnfolds(l.table, l.pool, p, NamedTick(l.ticks, p.tickLower), NamedTick(l.ticks, p.tickUpper), delta, l.now, m);
  }

  /** A range `k` changed by `delta`, and its owner `i` by `share`. */
  lemma ResizedSpare(l: Ledger, l': Ledger, k: nat, delta: int, i: nat, p: PersonalPosition, share: int, j: nat)
    requires k < |l.protocols| && i < |l.personals| && |l'.protocols| == |l.protocols|
    requires l'.protocols[k].liquidity == l.protocols[k].liquidity + delta
    requires j < |l.protocols| && j != k ==> l'.protocols[j] == l.protocols[j]
    requires l.personals[i].protocol == k == p.protocol && p.liquidity == l.personals[i].liquidity + share
    requires l'.personals == l.personals[i := p]
    ensures Spare(l', j) == Spare(l, j) + (if j == k then delta - share else 0)
  {
    hide Held;
    HeldPoint(l.personals, i, p, j);
  }

  lemma IncreaseSpare(l: Ledger, i: nat, liquidity: nat, max0: nat, max1: nat, baseFlag: Option<bool>, l': Ledger, j: nat)
    requires i < |l.personals| && l.personals[i].protocol < |l.protocols|
    requires IncreaseLiquidity(l, i, liquidity, max0, max1, baseFlag) == Ok(l')
    ensures |l'.protocols| == |l.protocols|
    ensures Spare(l', j) == Spare(l, j) + Unowned(l, Increase(i, liquidity, max0, max1, baseFlag), j)
    ensures liquidity == 0 ==> Unowned(l, Increase(i, liquidity, max0, max1, baseFlag), l.personals[i].protocol) > 0
  {
    hide IncreaseLiquidity, RequestedLiquidity, Modifies, Spare, Credit;
    var k := l.personals[i].protocol;
    var amount, m, p := IncreaseUnfolds(l, i, liquidity, max0, max1, baseFlag, l');
    ModifyRaises(l, k, amount, m);
    CreditKeepsLiquidity(l.personals[i], Minted(l, k, m).protocols[k].growthInside);
    assert liquidity > 0 ==> amount == liquidity by { ExplicitRequest(l, k, liquidity, max0, max1, baseFlag); }
    ResizedSpare(l, l', k, amount, i, p.(liquidity := l.personals[i].liquidity + liquidity), liquidity, j);
  }

  lemma ExplicitRequest(l: Ledger, j: nat, liquidity: nat, max0: nat, max1: nat, baseFlag: Option<bool>)
    requires j < |l.protocols|
    ensures liquidity > 0 ==> RequestedLiquidity(l.table, l.pool.sqrtPrice, l.protocols[j], liquidity, max0, max1, baseFlag) == Ok(liquidity)
  {}

  lemma DecreaseSpare(l: Ledger, i: nat, liquidity: nat, min0: nat, min1: nat, l': Ledger, j: nat)
    requires Inv(l) && i < |l.personals| && l.personals[i].protocol < |l.protocols|
    requires DecreaseLiquidity(l, i, liquidity, min0, min1) == Ok(l')
    ensures |l'.protocols| == |l.protocols| && Spare(l', j) == Spare(l, j)
  {
    hide DecreaseLiquidity, Modifies, Spare, Credit, AccrualInv, ClaimsCovered, HoldingsInv, LiquidityInv, NamedSlots, GrowthInv,
      PriceInv, VaultsInv, TotalsFit, BurnLiquidity;
    PaymentStands(l, i, liquidity, min0, min1);
    var (burnt, amount0, amount1) := BurnAndCredit(l, i, liquidity).value;
    var k := l.personals[i].protocol;
    if DecreaseOp !in l.pool.disabled {
      var m, p := BurnAndCreditUnfolds(l, i, liquidity, burnt, amount0, amount1);
      ModifyRaises(l, k, 0 - liquidity, m);
      CreditKeepsLiquidity(l.personals[i], m.protocol.growthInside);
      ResizedSpare(l, burnt, k, 0 - liquidity, i, p.(liquidity := l.personals[i].liquidity - liquidity), 0 - liquidity, j);
    }
    StandingKeepsSpare(burnt, l', j);
  }

  lemma CreatedSpare(l: Ledger, tickLower: int, tickUpper: int, j: nat)
    requires ValidRanges(l)
    ensures Spare(Created(l, tickLower, tickUpper), j) == Spare(l, j)
  {
    if j == |l.protocols| { NobodyInGroup(Owners(l.personals), Shares(l.personals), j, |l.personals|); }
  }

  /** Opening: the range is found or made, and the new owner gets all of what is minted. */
  lemma OpenSpare(l: Ledger, tickLower: int, tickUpper: int, liquidity: nat, max0: nat, max1: nat, baseFlag: Option<bool>, l': Ledger, j: nat)
    requires ValidRanges(l) && OpenPosition(l, tickLower, tickUpper, liquidity, max0, max1, baseFlag) == Ok(l')
    ensures |l.protocols| <= |l'.protocols|
    ensures Spare(l', j) == Spare(l, j)
  {
    hide AddLiquidity, FindOrCreate, Modifies, Created, OpenPosition, Spare, RequestedLiquidity;
    var found, k, added := OpenParts(l, tickLower, tickUpper, liquidity, max0, max1, baseFlag, l');
    FindOrCreateIs(l, tickLower, tickUpper);
    CreatedRanges(l, tickLower, tickUpper);
    CreatedSpare(l, tickLower, tickUpper, j);
    if liquidity > 0 {
      var amount, m := AddUnfolds(found, k, liquidity, max0, max1, baseFlag, l.now, added);
      ModifyRaises(found, k, liquidity, m);
      OpenedSpare(found, added, k, liquidity, l', j);
    } else {
      OpenedSpare(found, added, k, 0, l', j);
    }
  }

  lemma CreatedRanges(l: Ledger, tickLower: int, tickUpper: int)
    ensures var made := Created(l, tickLower, tickUpper);
            |made.protocols| == |l.protocols| + 1 && made.personals == l.personals && made.now == l.now
  {}

  lemma OpenedSpare(found: Ledger, added: Ledger, k: nat, liquidity: nat, l': Ledger, j: nat)
    requires k < |found.protocols| && |added.protocols| == |found.protocols|
    requires added.personals == found.personals && added.protocols[k].liquidity == found.protocols[k].liquidity + liquidity
    requires j < |found.protocols| && j != k ==> added.protocols[j] == found.protocols[j]
    requires exists p :: l' == WithNew(added, p) && p.protocol == k && p.liquidity == liquidity
    ensures Spare(l', j) == Spare(found, j)
  {
    hide Held;
    var p :| l' == WithNew(added, p) && p.protocol == k && p.liquidity == liquidity;
    HeldAppend(found.personals, p, j);
  }

  lemma TradeKeepsOwners(l: Ledger, op: Instruction, l': Ledger, j: nat)
    requires PoolInv(l) && Apply(l, op) == Ok(l') && op.Trade?
    ensures l'.protocols == l.protocols && l'.personals == l.personals && Spare(l', j) == Spare(l, j)
  {
    hide PoolInv, SwapLoop, UpdateRewardInfos;
  }

  /** Each instruction adds to what a range holds beyond its owners exactly what it mints for a budget. */
  lemma StepSpare(l: Ledger, op: Instruction, l': Ledger, j: nat)
    requires PoolInv(l) && Apply(l, op) == Ok(l')
    ensures |l.protocols| <= |l'.protocols|
    ensures Spare(l', j) == Spare(l, j) + Unowned(l, op, j)
  {
    hide TimesInv, Swap, Spare, RequestedLiquidity, OpenPosition, IncreaseLiquidity, DecreaseLiquidity, AccrualInv, ClaimsCovered,
      PriceInv, VaultsInv;
    match op
    case Open(tickLower, tickUpper, liquidity, max0, max1, baseFlag) =>
      OpenSpare(l, tickLower, tickUpper, liquidity, max0, max1, baseFlag, l', j);
    case Increase(i, liquidity, max0, max1, baseFlag) => IncreaseSpare(l, i, liquidity, max0, max1, baseFlag, l', j);
    case Decrease(i, liquidity, min0, min1) => DecreaseSpare(l, i, liquidity, min0, min1, l', j);
    case Trade(_, _, _, _, _) => TradeKeepsOwners(l, op, l', j);
    case _ =>
      OthersStand(l, op, l');
      StandingKeepsSpare(l, l', j);
  }

  /** Where owners hold all of every range, they still do after an instruction exactly if it does not mint
      for a budget. */
  lemma StepFullyOwned(l: Ledger, op: Instruction, l': Ledger)
    requires PoolInv(l) && Apply(l, op) == Ok(l') && FullyOwned(l)
    ensures FullyOwned(l') <==> !MintsForBudget(op)
  {
    hide PoolInv, Apply, Spare, RequestedLiquidity;
    forall j: nat ensures Spare(l', j) == Unowned(l, op, j) {
      StepSpare(l, op, l', j);
    }
    if MintsForBudget(op) { var j := BudgetIsUnowned(l, op, l'); }
  }

  lemma BudgetIsUnowned(l: Ledger, op: Instruction, l': Ledger) returns (j: nat)
    requires PoolInv(l) && Apply(l, op) == Ok(l') && MintsForBudget(op)
    ensures Unowned(l, op, j) > 0
  {
    hide Spare, Unowned, Inv, TimesInv, IncreaseLiquidity;
    RangeOfPosition(l, op.position);
    j := l.personals[op.position].protocol;
    IncreaseSpare(l, op.position, op.liquidity, op.max0, op.max1, op.baseFlag, l', j);
  }

  // -----------------------------------------------------------------------------------------
  // Owners over whole runs

  /** The instruction of an event goes through. */
  ghost predicate Succeeds(l: Ledger, e: Event)
    requires PoolInv(l)
  {
    WaitingKeepsInv(l, e.elapsed);
    Apply(After(l, e.elapsed), e.op).Ok?
  }

  /** All that a run mints into range `j` for nobody. */
  ghost function UnownedInRun(l: Ledger, events: seq<Event>, j: nat): nat
    requires PoolInv(l)
    decreases |events|
  {
    if events == [] then 0
    else
      NextKeepsInv(l, events[0]);
      (if Succeeds(l, events[0]) then Unowned(After(l, events[0].elapsed), events[0].op, j) else 0)
      + UnownedInRun(Next(l, events[0]), events[1..], j)
  }

  /** Some instruction of a run mints for a budget, and goes through. */
  ghost predicate SomeMintsForBudget(l: Ledger, events: seq<Event>)
    requires PoolInv(l)
    decreases |events|
  {
    if events == [] then false
    else
      NextKeepsInv(l, events[0]);
      (MintsForBudget(events[0].op) && Succeeds(l, events[0])) || SomeMintsForBudget(Next(l, events[0]), events[1..])
  }

  lemma NextSpare(l: Ledger, e: Event, j: nat)
    requires PoolInv(l)
    ensures |l.protocols| <= |Next(l, e).protocols|
    ensures Spare(Next(l, e), j) == Spare(l, j) + (if Succeeds(l, e) then Unowned(After(l, e.elapsed), e.op, j) else 0)
  {
    hide PoolInv, Apply, Unowned;
    WaitingKeepsInv(l, e.elapsed);
    var waited := After(l, e.elapsed);
    var r := Apply(waited, e.op);
    if r.Ok? { StepSpare(waited, e.op, r.value, j); }
  }

  /** Over any run the owners' shortfall in a range grows by exactly what was minted for budgets. */
  lemma {:induction false} RunSpare(l: Ledger, events: seq<Event>, j: nat)
    requires PoolInv(l)
    ensures |l.protocols| <= |Run(l, events).protocols|
    ensures Spare(Run(l, events), j) == Spare(l, j) + UnownedInRun(l, events, j)
    decreases |events|
  {
    hide PoolInv, Next, Spare, Unowned, Succeeds;
    if events != [] {
      NextKeepsInv(l, events[0]);
      NextSpare(l, events[0], j);
      RunSpare(Next(l, events[0]), events[1..], j);
    }
  }

  lemma {:induction false} BudgetsLeaveUnowned(l: Ledger, events: seq<Event>) returns (j: nat)
    requires PoolInv(l) && SomeMintsForBudget(l, events)
    ensures UnownedInRun(l, events, j) > 0
    decreases |events|
  {
    hide PoolInv, Next, Unowned, Apply, Run;
    var e := events[0];
    NextKeepsInv(l, e);
    WaitingKeepsInv(l, e.elapsed);
    if MintsForBudget(e.op) && Succeeds(l, e) {
      j := BudgetIsUnowned(After(l, e.elapsed), e.op, Apply(After(l, e.elapsed), e.op).value);
    } else {
      j := BudgetsLeaveUnowned(Next(l, e), events[1..]);
    }
  }

  lemma {:induction false} NoBudgetsNothingUnowned(l: Ledger, events: seq<Event>, j: nat)
    requires PoolInv(l) && !SomeMintsForBudget(l, events)
    ensures UnownedInRun(l, events, j) == 0
    decreases |events|
  {
    hide PoolInv, Next, RequestedLiquidity, Apply, Run;
    if events != [] {
      NextKeepsInv(l, events[0]);
      NoBudgetsNothingUnowned(Next(l, events[0]), events[1..], j);
    }
  }

  /** Owners hold all of every range after a run exactly if no instruction of it minted for a budget. */
  lemma RunFullyOwned(l: Ledger, events: seq<Event>)
    requires PoolInv(l) && FullyOwned(l)
    ensures FullyOwned(Run(l, events)) <==> !SomeMintsForBudget(l, events)
  {
    hide PoolInv, Spare, UnownedInRun, SomeMintsForBudget, Run;
    if SomeMintsForBudget(l, events) {
      var j := BudgetsLeaveUnowned(l, events);
      RunSpare(l, events, j);
    } else {
      forall j: nat ensures Spare(Run(l, events), j) == 0 {
        RunSpare(l, events, j);
        NoBudgetsNothingUnowned(l, events, j);
      }
    }
  }

  lemma NoRangesFullyOwned(l: Ledger)
    requires l.protocols == []
    ensures FullyOwned(l)
  {}

  /** So it is for every run from a new pool. */
  lemma ReachedFullyOwned(table: PriceTable, config: AmmConfig, tickSpacing: nat, sqrtPrice: nat, openTime: nat, now: nat, events: seq<Event>)
    requires ValidTable(table) && ConfigInv(config) && CreatePool(table, config, tickSpacing, sqrtPrice, openTime, now).Ok?
    ensures var l := CreatePool(table, config, tickSpacing, sqrtPrice, openTime, now).value;
            PoolInv(l) && (FullyOwned(Run(l, events)) <==> !SomeMintsForBudget(l, events))
  {
    hide PoolInv, FullyOwned, SomeMintsForBudget, Run, TickAtSqrtPrice;
    CreatedPoolInv(table, config, tickSpacing, sqrtPrice, openTime, now);
    var l := CreatePool(table, config, tickSpacing, sqrtPrice, openTime, now).value;
    NoRangesFullyOwned(l);
    RunFullyOwned(l, events);
  }
}
