/** Opening a position keeps every invariant. */
module OpenSafety {
  import opened Wrappers
  import opened FullMath
  import opened PoolTypes
  import opened TickGrowth
  import opened Ledger
  import opened Sums
  import opened Invariants
  import opened ClaimLemmas
  import opened PositionLemmas
  import opened Vaults
  import opened PositionSafety

  lemma FindOrCreateIs(l: Ledger, tickLower: int, tickUpper: int)
    requires tickLower != tickUpper
    ensures var (found, j) := FindOrCreate(l, tickLower, tickUpper);
            && j < |found.protocols|
            && found.protocols[j].tickLower == tickLower && found.protocols[j].tickUpper == tickUpper
            && (found == l || found == Created(l, tickLower, tickUpper))
  {}

  lemma EmptyRangeCountsNothing(protocols: seq<ProtocolPosition>, p: ProtocolPosition, w: Count)
    requires p.liquidity == 0
    ensures Total(protocols + [p], w) == Total(protocols, w)
  {
    assert Terms(protocols + [p], w) == Terms(protocols, w) + [0];
    SumAppend(Terms(protocols, w), 0);
  }

  lemma {:induction false} NobodyInGroup(group: seq<int>, f: seq<int>, j: int, m: nat)
    requires m <= |group| == |f| && forall k :: 0 <= k < m ==> group[k] != j
    ensures GroupTo(group, f, j, m) == 0
  {
    if m > 0 { NobodyInGroup(group, f, j, m - 1); }
  }

  lemma RenamedTick(l: Ledger, tickLower: int, tickUpper: int, t: int)
    requires NamedSlots(l) && tickLower != tickUpper
    ensures var s, s' := TickOf(l.ticks, t), TickOf(Created(l, tickLower, tickUpper).ticks, t);
            s' == s.(tick := s'.tick) && (s'.tick == t || s'.tick == 0) && (s'.IsInitialized() ==> s'.tick == t)
  {}

  lemma CreatedKeepsTotals(l: Ledger, tickLower: int, tickUpper: int)
    requires LiquidityInv(l) && NamedSlots(l) && tickLower < tickUpper
    ensures LiquidityInv(Created(l, tickLower, tickUpper))
  {
    var l' := Created(l, tickLower, tickUpper);
    var p := ProtocolPosition(tickLower, tickUpper, 0, ZERO_FIVE, [0, 0]);
    EmptyRangeCountsNothing(l.protocols, p, Active(l.pool.tickCurrent));
    forall t
      ensures TickOf(l'.ticks, t).liquidityGross == Total(l'.protocols, Gross(t))
      ensures TickOf(l'.ticks, t).liquidityNet == Total(l'.protocols, Net(t))
    {
      RenamedTick(l, tickLower, tickUpper, t);
      EmptyRangeCountsNothing(l.protocols, p, Gross(t));
      EmptyRangeCountsNothing(l.protocols, p, Net(t));
    }
  }

  lemma CreatedKeepsSlots(l: Ledger, tickLower: int, tickUpper: int)
    requires NamedSlots(l) && GrowthInv(l) && tickLower < tickUpper
    ensures NamedSlots(Created(l, tickLower, tickUpper)) && GrowthInv(Created(l, tickLower, tickUpper))
  {
    var l' := Created(l, tickLower, tickUpper);
    forall t
      ensures var s, s' := TickOf(l.ticks, t), TickOf(l'.ticks, t);
              s' == s.(tick := s'.tick) && (s'.tick == t || s'.tick == 0) && (s'.IsInitialized() ==> s'.tick == t)
    {
      RenamedTick(l, tickLower, tickUpper, t);
    }
  }

  lemma CreatedKeepsStructure(l: Ledger, tickLower: int, tickUpper: int)
    requires StructureInv(l) && MIN_TICK <= tickLower < tickUpper <= MAX_TICK
    ensures StructureInv(Created(l, tickLower, tickUpper))
  {
    CreatedKeepsTotals(l, tickLower, tickUpper);
    CreatedKeepsSlots(l, tickLower, tickUpper);
  }

  lemma CreatedKeepsClaims(l: Ledger, tickLower: int, tickUpper: int)
    requires ClaimsInv(l) && MIN_TICK <= tickLower < tickUpper <= MAX_TICK
    ensures ClaimsInv(Created(l, tickLower, tickUpper))
  {
    hide LiquidityInv, NamedSlots, GrowthInv;
    var l' := Created(l, tickLower, tickUpper);
    CreatedKeepsStructure(l, tickLower, tickUpper);
    forall k | 0 <= k < |l'.protocols| ensures Held(l'.personals, k) <= l'.protocols[k].liquidity {
      if k < |l.protocols| {
        assert Held(l.personals, k) <= l.protocols[k].liquidity;
      } else {
        NobodyInGroup(Owners(l.personals), Shares(l.personals), k, |l.personals|);
      }
    }
    SameEarningsSameClaims(l, l');
  }

  lemma CreatedBacking(l: Ledger, tickLower: int, tickUpper: int, token: int)
    requires ValidTable(l.table) && ValidRanges(l) && MIN_TICK <= tickLower < tickUpper <= MAX_TICK
    ensures ValidRanges(Created(l, tickLower, tickUpper))
    ensures RealSum(Backing(Created(l, tickLower, tickUpper), token)) == RealSum(Backing(l, token))
  {
    hide UnitOf;
    var l' := Created(l, tickLower, tickUpper);
    forall p: ProtocolPosition | MIN_TICK <= p.tickLower < p.tickUpper <= MAX_TICK
      ensures UnitOf(l', p, token) == UnitOf(l, p, token)
    {
      SameUnit(l, l', p, token);
    }
    assert Backing(l', token) == Backing(l, token) + [0.0];
    RealSumAppend(Backing(l, token), 0.0);
  }

  lemma SameUnit(l: Ledger, l': Ledger, p: ProtocolPosition, token: int)
    requires ValidTable(l.table) && MIN_TICK <= p.tickLower < p.tickUpper <= MAX_TICK
    requires l'.table == l.table && l'.pool.sqrtPrice == l.pool.sqrtPrice
    ensures UnitOf(l', p, token) == UnitOf(l, p, token)
  {}

  lemma CreatedKeepsInv(l: Ledger, tickLower: int, tickUpper: int)
    requires Inv(l) && MIN_TICK <= tickLower < tickUpper <= MAX_TICK
    ensures Inv(Created(l, tickLower, tickUpper))
  {
    hide LiquidityInv, NamedSlots, GrowthInv, HoldingsInv, AccrualInv, ClaimsCovered, ConfigInv, TotalsFit, Backing;
    CreatedKeepsClaims(l, tickLower, tickUpper);
    CreatedBacking(l, tickLower, tickUpper, 0);
    CreatedBacking(l, tickLower, tickUpper, 1);
    Reassemble(l, Created(l, tickLower, tickUpper));
  }

  // -----------------------------------------------------------------------------------------
  // The new personal position

  /** A position that starts with nothing owed and nothing left to credit. */
  ghost predicate Fresh(l: Ledger, p: PersonalPosition) {
    && p.protocol < |l.protocols|
    && p.owed == ZERO_FIVE
    && (p.liquidity > 0 ==> RecordsGrowth(l, p, p.growthInside))
  }

  function WithNew(l: Ledger, p: PersonalPosition): Ledger {
    l.(personals := l.personals + [p])
  }

  lemma FreshClaimsNothing(l: Ledger, p: PersonalPosition, c: int)
    requires Fresh(l, p) && 0 <= c < 5
    ensures ClaimOf(l, p, c) == 0 && (p.liquidity > 0 ==> Uncredited(l, p, c) == 0)
  {
    if p.liquidity > 0 {
      AccruedOfWrapped(RangeGrowth(l, l.protocols[p.protocol], c), 0);
      assert p.growthInside[c] == WrappingSub(RangeGrowth(l, l.protocols[p.protocol], c), 0);
    }
  }

  lemma NewPositionKeepsClaims(l: Ledger, p: PersonalPosition)
    requires ClaimsInv(l) && Fresh(l, p)
    requires Held(l.personals, p.protocol) + p.liquidity <= l.protocols[p.protocol].liquidity
    ensures ClaimsInv(WithNew(l, p))
  {
    hide LiquidityInv, NamedSlots, GrowthInv, Held;
    var l' := WithNew(l, p);
    StructureFrame(l, l'.personals);
    forall k | 0 <= k < |l'.protocols| ensures Held(l'.personals, k) <= l'.protocols[k].liquidity {
      HeldAppend(l.personals, p, k);
      assert Held(l.personals, k) <= l.protocols[k].liquidity;
    }
    forall c | 0 <= c < 5 ensures ChannelSolvent(l', c) && (p.liquidity > 0 ==> Uncredited(l', p, c) == 0) {
      FreshClaimsNothing(l, p, c);
      NewPositionClaims(l, p, c);
      assert ChannelSolvent(l, c);
    }
  }

  lemma NewPositionClaims(l: Ledger, p: PersonalPosition, c: int)
    requires ValidRanges(l) && p.protocol < |l.protocols| && 0 <= c < 5 && ClaimOf(l, p, c) == 0
    ensures ValidRanges(WithNew(l, p)) && Sum(Claims(WithNew(l, p), c)) == Sum(Claims(l, c))
  {
    assert Claims(WithNew(l, p), c) == Claims(l, c) + [0];
    SumAppend(Claims(l, c), 0);
  }

  lemma NewPositionKeepsInv(l: Ledger, p: PersonalPosition)
    requires Inv(l) && Fresh(l, p)
    requires Held(l.personals, p.protocol) + p.liquidity <= l.protocols[p.protocol].liquidity
    ensures Inv(WithNew(l, p))
  {
    hide LiquidityInv, NamedSlots, GrowthInv, HoldingsInv, AccrualInv, ClaimsCovered, VaultSolvent, Fresh;
    NewPositionKeepsClaims(l, p);
    VaultsFrame(l, WithNew(l, p));
    Reassemble(l, WithNew(l, p));
  }

  // -----------------------------------------------------------------------------------------
  // The whole instruction

  lemma OpenParts(l: Ledger, tickLower: int, tickUpper: int, liquidity: nat, max0: nat, max1: nat, baseFlag: Option<bool>, l': Ledger)
    returns (found: Ledger, j: nat, added: Ledger)
    requires OpenPosition(l, tickLower, tickUpper, liquidity, max0, max1, baseFlag) == Ok(l')
    ensures MIN_TICK <= tickLower < tickUpper <= MAX_TICK
    ensures FindOrCreate(l, tickLower, tickUpper) == (found, j) && j < |added.protocols|
    ensures liquidity > 0 ==> AddLiquidity(found, j, liquidity, max0, max1, baseFlag, l.now) == Ok(added)
    ensures liquidity == 0 ==> added == found
    ensures l' == WithNew(added, PersonalPosition(j, liquidity, added.protocols[j].growthInside, ZERO_FIVE))
  {
    hide AddLiquidity, FindOrCreate;
    var (found', j') := FindOrCreate(l, tickLower, tickUpper);
    found, j := found', j';
    added := if liquidity > 0 then AddLiquidity(found, j, liquidity, max0, max1, baseFlag, l.now).value else found;
  }

  lemma OpenWithLiquidity(found: Ledger, j: nat, liquidity: nat, m: Modified)
    requires Inv(found) && j < |found.protocols| && 0 < liquidity && Modifies(found, j, liquidity, found.now, m)
    ensures Inv(WithNew(Minted(found, j, m), PersonalPosition(j, liquidity, m.protocol.growthInside, ZERO_FIVE)))
  {
    hide Inv, Modifies, ModifyPosition, RangeGrowth, Moved;
    MintKeepsInv(found, j, liquidity, found.now, m);
    MintHasEffect(found, j, liquidity, found.now, m);
    var p := PersonalPosition(j, liquidity, m.protocol.growthInside, ZERO_FIVE);
    HoldsAtMost(found, j);
    NewPositionKeepsInv(Minted(found, j, m), p);
  }

  lemma HoldsAtMost(l: Ledger, j: nat)
    requires Inv(l) && j < |l.protocols|
    ensures Held(l.personals, j) <= l.protocols[j].liquidity
  {
    assert HoldingsInv(l);
  }

  lemma OpenKeepsInv(l: Ledger, tickLower: int, tickUpper: int, liquidity: nat, max0: nat, max1: nat,
                     baseFlag: Option<bool>, l': Ledger)
    requires Inv(l) && OpenPosition(l, tickLower, tickUpper, liquidity, max0, max1, baseFlag) == Ok(l')
    ensures Inv(l')
  {
    hide Inv, AddLiquidity, FindOrCreate, Modifies, Created, OpenPosition;
    var found, j, added := OpenParts(l, tickLower, tickUpper, liquidity, max0, max1, baseFlag, l');
    FindOrCreateIs(l, tickLower, tickUpper);
    CreatedKeepsInv(l, tickLower, tickUpper);
    if liquidity > 0 {
      assert found.now == l.now by { CreatedKeepsClock(l, tickLower, tickUpper); }
      var amount, m := AddUnfolds(found, j, liquidity, max0, max1, baseFlag, l.now, added);
      OpenWithLiquidity(found, j, liquidity, m);
    } else {
      HoldsAtMost(found, j);
      NewPositionKeepsInv(found, PersonalPosition(j, 0, found.protocols[j].growthInside, ZERO_FIVE));
    }
  }

  lemma CreatedKeepsClock(l: Ledger, tickLower: int, tickUpper: int)
    ensures Created(l, tickLower, tickUpper).now == l.now
  {}
}
