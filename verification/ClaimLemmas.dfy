/** How each elementary change moves the claims on a growth channel. */
module ClaimLemmas {
  import opened Wrappers
  import opened FullMath
  import opened PoolTypes
  import opened TickGrowth
  import opened Ledger
  import opened Sums
  import opened Invariants

  // -----------------------------------------------------------------------------------------
  // Accrual: a channel grows by `delta` per unit of active liquidity, and takes in `income`.

  ghost function Accrue(l: Ledger, c: int, delta: nat, income: nat): Ledger
    requires 0 <= c < 5
  {
    l.(pool := l.pool.(growthGlobal := l.pool.growthGlobal[c := l.pool.growthGlobal[c] + delta],
                       total := l.pool.total[c := l.pool.total[c] + income]))
  }

  /** Personal liquidity in range. */
  ghost function ActiveShares(l: Ledger): (r: seq<int>)
    requires ValidRanges(l)
    ensures |r| == |l.personals|
    ensures forall i :: 0 <= i < |r| ==>
      var p := l.protocols[l.personals[i].protocol];
      r[i] == if p.tickLower <= l.pool.tickCurrent < p.tickUpper then l.personals[i].liquidity else 0
  {
    seq(|l.personals|, i requires 0 <= i < |l.personals| =>
      var p := l.protocols[l.personals[i].protocol];
      if p.tickLower <= l.pool.tickCurrent < p.tickUpper then l.personals[i].liquidity else 0)
  }

  /** Owners in range hold at most the pool's liquidity. */
  lemma ActiveSharesAtMostLiquidity(l: Ledger)
    requires ValidRanges(l) && LiquidityInv(l) && HoldingsInv(l)
    ensures 0 <= Sum(ActiveShares(l)) <= l.pool.liquidity
  {
    var cur := l.pool.tickCurrent;
    var n := |l.protocols|;
    var limit := seq(n, j requires 0 <= j < n => l.protocols[j].liquidity);
    var pick := seq(n, j requires 0 <= j < n => l.protocols[j].tickLower <= cur < l.protocols[j].tickUpper);
    SumToNonNegative(ActiveShares(l), |l.personals|);
    PickedMembersAtMostPickedGroups(Owners(l.personals), Shares(l.personals), limit, pick,
                                    ActiveShares(l), Terms(l.protocols, Active(cur)));
  }

  lemma ClaimGrows(l: Ledger, c: int, delta: nat, income: nat, i: nat)
    requires 0 <= c < 5 && ValidRanges(l) && AccrualInv(l) && i < |l.personals|
    requires l.pool.growthGlobal[c] + delta < U128_LIMIT
    ensures var l' := Accrue(l, c, delta, income);
            var p := l.personals[i];
            ClaimOf(l', p, c) == ClaimOf(l, p, c) + delta * ActiveShares(l)[i] &&
            (p.liquidity > 0 ==> Uncredited(l', p, c) <= l'.pool.growthGlobal[c])
  {
    var l' := Accrue(l, c, delta, income);
    var p := l.personals[i];
    var q := l.protocols[p.protocol];
    InsideAccrues(l.pool.growthGlobal[c], delta, TickOf(l.ticks, q.tickLower).growthOutside[c],
                  TickOf(l.ticks, q.tickUpper).growthOutside[c], l.pool.tickCurrent, q.tickLower, q.tickUpper);
    if p.liquidity > 0 && q.tickLower <= l.pool.tickCurrent < q.tickUpper {
      AccruedGrows(RangeGrowth(l, q, c), p.growthInside[c], delta);
      assert p.liquidity * (Uncredited(l, p, c) + delta) == p.liquidity * Uncredited(l, p, c) + delta * p.liquidity;
    }
  }

  /** Channels other than the one that moves keep their claims. */
  lemma OtherChannelsKeepClaims(l: Ledger, l': Ledger, d: int)
    requires 0 <= d < 5 && ValidRanges(l) && ValidRanges(l')
    requires l'.personals == l.personals && l'.protocols == l.protocols && l'.ticks == l.ticks
    requires l'.pool.tickCurrent == l.pool.tickCurrent && l'.pool.growthGlobal[d] == l.pool.growthGlobal[d]
    ensures Claims(l', d) == Claims(l, d)
    ensures forall i :: 0 <= i < |l.personals| ==>
              Uncredited(l', l.personals[i], d) == Uncredited(l, l.personals[i], d)
  {}

  lemma AccruedClaimsCovered(l: Ledger, c: int, delta: nat, income: nat)
    requires 0 <= c < 5 && ValidRanges(l) && LiquidityInv(l) && HoldingsInv(l) && AccrualInv(l) && ChannelSolvent(l, c)
    requires l.pool.growthGlobal[c] + delta < U128_LIMIT
    requires l.pool.liquidity * delta <= Q64 * income
    ensures ChannelSolvent(Accrue(l, c, delta, income), c)
  {
    var l' := Accrue(l, c, delta, income);
    forall i | 0 <= i < |l.personals|
      ensures Claims(l', c)[i] == Claims(l, c)[i] + delta * ActiveShares(l)[i]
    {
      ClaimGrows(l, c, delta, income, i);
    }
    SumAddScaled(Claims(l, c), Claims(l', c), ActiveShares(l), delta);
    ActiveSharesAtMostLiquidity(l);
    MulLe(Sum(ActiveShares(l)), l.pool.liquidity, delta);
    assert Unclaimed(l'.pool, c) == Unclaimed(l.pool, c) + income;
  }

  /** Growth that the income pays for keeps every claim covered. */
  lemma AccrueKeepsClaimsCovered(l: Ledger, c: int, delta: nat, income: nat)
    requires 0 <= c < 5 && ValidRanges(l) && LiquidityInv(l) && HoldingsInv(l) && AccrualInv(l) && ClaimsCovered(l)
    requires l.pool.growthGlobal[c] + delta < U128_LIMIT
    requires l.pool.liquidity * delta <= Q64 * income
    ensures var l' := Accrue(l, c, delta, income);
            AccrualInv(l') && ClaimsCovered(l')
  {
    var l' := Accrue(l, c, delta, income);
    AccruedClaimsCovered(l, c, delta, income);
    forall d | 0 <= d < 5
      ensures ChannelSolvent(l', d)
      ensures forall i :: 0 <= i < |l.personals| && l.personals[i].liquidity > 0 ==>
                Uncredited(l', l.personals[i], d) <= l'.pool.growthGlobal[d]
    {
      if d == c {
        forall i | 0 <= i < |l.personals| && l.personals[i].liquidity > 0
          ensures Uncredited(l', l.personals[i], d) <= l'.pool.growthGlobal[d]
        {
          ClaimGrows(l, c, delta, income, i);
        }
      } else {
        OtherChannelsKeepClaims(l, l', d);
        assert ChannelSolvent(l, d);
      }
    }
  }

  // -----------------------------------------------------------------------------------------
  // Crediting and paying one position

  /** Replacing one position leaves the other claims alone. */
  lemma ClaimsPoint(l: Ledger, i: nat, p: PersonalPosition, c: int)
    requires ValidRanges(l) && i < |l.personals| && 0 <= c < 5
    requires p.protocol == l.personals[i].protocol
    ensures var l' := l.(personals := l.personals[i := p]);
            ValidRanges(l') &&
            Sum(Claims(l', c)) == Sum(Claims(l, c)) + ClaimOf(l, p, c) - ClaimOf(l, l.personals[i], c)
  {
    var l' := l.(personals := l.personals[i := p]);
    SumPoint(Claims(l, c), Claims(l', c), i);
  }

  /** The growth a position is credited up to is what its range has earned by now. */
  ghost predicate RecordsGrowth(l: Ledger, p: PersonalPosition, inside: Five)
    requires p.protocol < |l.protocols|
  {
    forall c :: 0 <= c < 5 ==> inside[c] == WrappingSub(RangeGrowth(l, l.protocols[p.protocol], c), 0)
  }

  /** Crediting rounds down, so it never adds to a claim. */
  lemma CreditChannelLosesNothing(l: Ledger, p: PersonalPosition, inside: Five, p': PersonalPosition, c: int)
    requires p.protocol < |l.protocols| && 0 <= c < 5
    requires RecordsGrowth(l, p, inside) && CreditChannel(p, inside, c).Ok?
    requires p'.protocol == p.protocol && p'.growthInside[c] == inside[c] && p'.owed[c] == CreditChannel(p, inside, c).value
    ensures Uncredited(l, p', c) == 0
    ensures ClaimOf(l, p', c) <= ClaimOf(l, p, c)
  {
    var raw := RangeGrowth(l, l.protocols[p.protocol], c);
    AccruedOfWrapped(raw, p.growthInside[c]);
    var earned := MulDivFloor128(Accrued(raw, p.growthInside[c]), p.liquidity, Q64).value;
    MulDivFloorIs(Accrued(raw, p.growthInside[c]), p.liquidity, Q64, U256_LIMIT, U128_LIMIT);
    assert p.owed[c] <= p'.owed[c] <= p.owed[c] + earned;
    if p.liquidity == 0 {
      assert earned * Q64 <= 0;
      assert earned == 0;
    }
  }

  /** A position that was credited up to now, whatever liquidity it is then given. */
  lemma CreditKeepsClaims(l: Ledger, i: nat, inside: Five, liquidity: nat)
    requires ValidRanges(l) && AccrualInv(l) && ClaimsCovered(l) && i < |l.personals|
    requires RecordsGrowth(l, l.personals[i], inside) && Credit(l.personals[i], inside).Ok?
    ensures var l' := l.(personals := l.personals[i := Credit(l.personals[i], inside).value.(liquidity := liquidity)]);
            ValidRanges(l') && AccrualInv(l') && ClaimsCovered(l')
  {
    var p := l.personals[i];
    var p' := Credit(p, inside).value.(liquidity := liquidity);
    var l' := l.(personals := l.personals[i := p']);
    CreditIs(p, inside, 0);
    forall c | 0 <= c < 5
      ensures ChannelSolvent(l', c) && Uncredited(l', p', c) == 0
    {
      CreditChannelLosesNothing(l, p, inside, p', c);
      ClaimsPoint(l, i, p', c);
      assert ChannelSolvent(l, c);
    }
  }

  /** What a position is owed is covered, so paying it never trips the guard. */
  lemma OwedIsCovered(l: Ledger, i: nat, c: int)
    requires ValidRanges(l) && ClaimsCovered(l) && i < |l.personals| && 0 <= c < 5
    ensures 0 <= l.personals[i].owed[c] <= Unclaimed(l.pool, c)
  {
    assert ChannelSolvent(l, c);
    forall k | 0 <= k < |l.personals| ensures 0 <= Claims(l, c)[k] {
      var p := l.personals[k];
      if p.liquidity > 0 { MulLe(0, p.liquidity, Uncredited(l, p, c)); }
    }
    TermAtMostSum(Claims(l, c), i);
    var p := l.personals[i];
    if p.liquidity > 0 { MulLe(0, p.liquidity, Uncredited(l, p, c)); }
  }

  /** Paying a claim takes as much off the claims as off the takings. */
  lemma ClaimKeepsChannel(l: Ledger, i: nat, c: int, amount: nat, d: int)
    requires ValidRanges(l) && i < |l.personals| && 0 <= c < 5 && 0 <= d < 5
    requires ChannelSolvent(l, d) && Claim(l, i, c, amount).Ok?
    ensures var l' := Claim(l, i, c, amount).value;
            ValidRanges(l') && ChannelSolvent(l', d)
  {
    hide Accrued, RangeGrowth, Sum;
    var l' := Claim(l, i, c, amount).value;
    var p, p' := l.personals[i], l'.personals[i];
    var mid := l.(personals := l.personals[i := p']);
    ClaimsPoint(l, i, p', d);
    forall k | 0 <= k < |l'.personals| ensures ClaimOf(l', l'.personals[k], d) == ClaimOf(mid, l'.personals[k], d) {
      SameRangeGrowth(l', mid, l'.protocols[l'.personals[k].protocol], d);
    }
    assert Claims(l', d) == Claims(mid, d);
    SameRangeGrowth(l, mid, l.protocols[p.protocol], d);
  }

  lemma SameRangeGrowth(l: Ledger, l': Ledger, p: ProtocolPosition, c: int)
    requires 0 <= c < 5 && l'.ticks == l.ticks && l'.pool.growthGlobal == l.pool.growthGlobal && l'.pool.tickCurrent == l.pool.tickCurrent
    ensures RangeGrowth(l', p, c) == RangeGrowth(l, p, c)
  {}

  lemma ClaimKeepsClaims(l: Ledger, i: nat, c: int, amount: nat)
    requires ValidRanges(l) && AccrualInv(l) && ClaimsCovered(l) && i < |l.personals| && 0 <= c < 5
    requires Claim(l, i, c, amount).Ok?
    ensures var l' := Claim(l, i, c, amount).value;
            ValidRanges(l') && AccrualInv(l') && ClaimsCovered(l')
  {
    hide ChannelSolvent, Accrued, RawInside;
    var l' := Claim(l, i, c, amount).value;
    forall d | 0 <= d < 5 ensures ChannelSolvent(l', d) { ClaimKeepsChannel(l, i, c, amount, d); }
    forall k, d | 0 <= k < |l'.personals| && 0 <= d < 5 && l'.personals[k].liquidity > 0
      ensures Uncredited(l', l'.personals[k], d) == Uncredited(l, l.personals[k], d) {}
  }
}
