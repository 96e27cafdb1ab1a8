/** What the instructions on rewards and collected fees leave behind, figure by figure. */
module RewardOutcome {
  import opened Wrappers
  import opened FullMath
  import opened PoolTypes
  import opened TickGrowth
  import opened Ledger
  import opened Invariants
  import opened PositionLemmas
  import opened PositionSafety
  import opened RewardAdmin

  // -----------------------------------------------------------------------------------------
  // Bringing rewards up to date

  /** Reward `k` as of `timestamp`: it emits, rounded up, and grows, rounded down, for the time since its last update
      that lies within its period, provided there is liquidity to pay. */
  ghost predicate RewardUpdated(before: PoolState, after: PoolState, k: nat, timestamp: nat)
    requires k < 3
  {
    var r := before.rewards[k];
    var growth: int, growth': int := before.growthGlobal[2 + k], after.growthGlobal[2 + k];
    var total: int, total': int := before.total[2 + k], after.total[2 + k];
    var runs, latest := r.initialized && r.openTime < timestamp, if timestamp < r.endTime then timestamp else r.endTime;
    && after.rewards[k] == (if runs then r.(lastUpdateTime := latest) else r)
    && (if runs && before.liquidity > 0 then
          && r.lastUpdateTime <= latest
          && IsFloor(growth' - growth, (latest - r.lastUpdateTime) * r.emissionsPerSecond, before.liquidity)
          && IsCeil(total' - total, (latest - r.lastUpdateTime) * r.emissionsPerSecond, Q64)
        else growth' == growth && total' == total)
  }

  /** All three of them, and nothing else. */
  ghost predicate RewardsUpdated(before: PoolState, after: PoolState, timestamp: nat) {
    && after == before.(growthGlobal := after.growthGlobal, total := after.total, rewards := after.rewards)
    && after.growthGlobal[..2] == before.growthGlobal[..2] && after.total[..2] == before.total[..2]
    && forall k :: 0 <= k < 3 ==> RewardUpdated(before, after, k, timestamp)
  }

  lemma OneRewardUpdates(pool: PoolState, k: nat, timestamp: nat)
    requires k < 3 && UpdateReward(pool, k, timestamp).Ok?
    ensures var after := UpdateReward(pool, k, timestamp).value;
            && RewardUpdated(pool, after, k, timestamp)
            && after == pool.(growthGlobal := pool.growthGlobal[2 + k := after.growthGlobal[2 + k]],
                              total := pool.total[2 + k := after.total[2 + k]], rewards := pool.rewards[k := after.rewards[k]])
  {
    hide MulDivFloor, MulDivCeil, IsFloor, IsCeil;
    var r := pool.rewards[k];
    if r.initialized && timestamp > r.openTime && pool.liquidity > 0 {
      var elapsed := Min(timestamp, r.endTime) - r.lastUpdateTime;
      MulDivFloorIs(elapsed, r.emissionsPerSecond, pool.liquidity, U256_LIMIT, U128_LIMIT);
      MulDivCeilIs(elapsed, r.emissionsPerSecond, Q64, U256_LIMIT, U128_LIMIT);
    }
  }

  predicate SameReward(before: PoolState, after: PoolState, k: nat)
    requires k < 3
  {
    && after.rewards[k] == before.rewards[k]
    && after.growthGlobal[2 + k] == before.growthGlobal[2 + k] && after.total[2 + k] == before.total[2 + k]
  }

  /** Rewards from `i` on are updated, those before it are not touched. */
  lemma {:induction false} RewardsFromUpdate(pool: PoolState, i: nat, timestamp: nat)
    requires i <= 3 && UpdateRewardsFrom(pool, i, timestamp).Ok?
    ensures var after := UpdateRewardsFrom(pool, i, timestamp).value;
            && (forall k :: i <= k < 3 ==> RewardUpdated(pool, after, k, timestamp))
            && (forall k :: 0 <= k < i ==> SameReward(pool, after, k))
            && after.liquidity == pool.liquidity
    decreases 3 - i
  {
    hide UpdateReward, IsFloor, IsCeil;
    if i < 3 {
      OneRewardUpdates(pool, i, timestamp);
      var next, after := UpdateReward(pool, i, timestamp).value, UpdateRewardsFrom(pool, i, timestamp).value;
      RewardsFromUpdate(next, i + 1, timestamp);
      assert SameReward(next, after, i);
      forall k | i < k < 3 ensures RewardUpdated(pool, after, k, timestamp) {
        assert SameReward(pool, next, k) && RewardUpdated(next, after, k, timestamp);
      }
      forall k | 0 <= k < i ensures SameReward(pool, after, k) {
        assert SameReward(pool, next, k) && SameReward(next, after, k);
      }
    }
  }

  /** `update_reward_infos` */
  lemma InfosUpdate(pool: PoolState, timestamp: nat)
    requires UpdateRewardInfos(pool, timestamp).Ok?
    ensures RewardsUpdated(pool, UpdateRewardInfos(pool, timestamp).value, timestamp)
  {
    hide UpdateReward, RewardUpdated;
    RewardsOnlyGrow(pool, 0, timestamp);
    RewardsFromUpdate(pool, 0, timestamp);
  }

  /** The reward has not run past `timestamp`, and its growth stays a u128, its emission a u64. */
  predicate RewardFits(pool: PoolState, k: nat, timestamp: nat)
    requires k < 3
  {
    var r := pool.rewards[k];
    var latest := if timestamp < r.endTime then timestamp else r.endTime;
    r.initialized && r.openTime < timestamp && pool.liquidity > 0 ==>
      && r.lastUpdateTime <= latest
      && pool.growthGlobal[2 + k] + (latest - r.lastUpdateTime) * r.emissionsPerSecond / pool.liquidity < U128_LIMIT
      && pool.total[2 + k] * Q64 + (latest - r.lastUpdateTime) * r.emissionsPerSecond <= 0xFFFF_FFFF_FFFF_FFFF * Q64
  }

  lemma OneRewardFits(pool: PoolState, k: nat, timestamp: nat)
    requires k < 3
    ensures UpdateReward(pool, k, timestamp).Ok? <==> RewardFits(pool, k, timestamp)
  {
    hide MulDivFloor, MulDivCeil;
    var r := pool.rewards[k];
    if r.initialized && timestamp > r.openTime && pool.liquidity > 0 && r.lastUpdateTime <= Min(timestamp, r.endTime) {
      var elapsed := Min(timestamp, r.endTime) - r.lastUpdateTime;
      var n := elapsed * r.emissionsPerSecond;
      MulDivFloorFits(elapsed, r.emissionsPerSecond, pool.liquidity, U256_LIMIT, U128_LIMIT);
      MulDivFloorIs(elapsed, r.emissionsPerSecond, pool.liquidity, U256_LIMIT, U128_LIMIT);
      MulDivCeilFits(elapsed, r.emissionsPerSecond, Q64, U256_LIMIT, U128_LIMIT);
      MulDivCeilIs(elapsed, r.emissionsPerSecond, Q64, U256_LIMIT, U128_LIMIT);
      MulLe(1, pool.liquidity, U128_LIMIT);
      var growth := MulDivFloor256(elapsed, r.emissionsPerSecond, pool.liquidity);
      if growth.Ok? { FloorIsQuotient(growth.value, n, pool.liquidity); }
      var emitted := MulDivCeil128(elapsed, r.emissionsPerSecond, Q64);
      if emitted.Ok? { CeilIsLeast(emitted.value, n, Q64, U64_LIMIT - 1 - pool.total[2 + k]); }
    }
  }

  lemma {:induction false} RewardsFromFit(pool: PoolState, i: nat, timestamp: nat)
    requires i <= 3
    ensures UpdateRewardsFrom(pool, i, timestamp).Ok? <==> forall k :: i <= k < 3 ==> RewardFits(pool, k, timestamp)
    decreases 3 - i
  {
    hide UpdateReward, RewardUpdated;
    if i < 3 {
      OneRewardFits(pool, i, timestamp);
      if UpdateReward(pool, i, timestamp).Ok? {
        OneRewardUpdates(pool, i, timestamp);
        var next := UpdateReward(pool, i, timestamp).value;
        RewardsFromFit(next, i + 1, timestamp);
        assert forall k :: i < k < 3 ==> RewardFits(next, k, timestamp) == RewardFits(pool, k, timestamp);
      }
    }
  }

  /** It succeeds exactly if that holds of every reward. */
  lemma InfosFit(pool: PoolState, timestamp: nat)
    ensures UpdateRewardInfos(pool, timestamp).Ok? <==> forall k :: 0 <= k < 3 ==> RewardFits(pool, k, timestamp)
  {
    RewardsFromFit(pool, 0, timestamp);
  }

  // -----------------------------------------------------------------------------------------
  // Paying rewards out

  /** Reward `k` pays owner `i` what it owes as far as its vault goes, and the same amount leaves the owed figure, leaves
      the vault and counts as claimed; or nothing moves. */
  predicate RewardPaid(l: Ledger, l': Ledger, i: nat, k: nat, pays: bool)
    requires i < |l.personals| && |l'.personals| == |l.personals| && k < 3
  {
    var owed, vault := l.personals[i].owed[2 + k], l.rewardVaults[k];
    var paid := if !pays then 0 else if owed <= vault then owed else vault;
    && l'.personals[i].owed[2 + k] + paid == owed
    && l'.rewardVaults[k] + paid == vault
    && l'.pool.claimed[2 + k] == l.pool.claimed[2 + k] + paid
  }

  /** Rewards `k` to `m` are set up. */
  predicate SetUp(rewards: Rewards, k: nat, m: nat) {
    k <= m && forall n :: k <= n <= m && n < 3 ==> rewards[n].initialized
  }

  /** Rewards before the first one that is not set up are paid, and nothing else changes. */
  predicate RewardsPaid(l: Ledger, l': Ledger, i: nat, on: bool)
    requires i < |l.personals|
  {
    && |l'.personals| == |l.personals|
    && (forall k :: 0 <= k < 3 ==> RewardPaid(l, l', i, k, Pays(l, k, on)))
    && OnlyRewardsPaid(l, l', i)
  }

  predicate Pays(l: Ledger, k: nat, on: bool) {
    on && SetUp(l.pool.rewards, 0, k)
  }

  predicate OnlyRewardsPaid(l: Ledger, l': Ledger, i: nat)
    requires i < |l.personals| && |l'.personals| == |l.personals|
  {
    && l'.personals[i].owed[..2] == l.personals[i].owed[..2] && l'.pool.claimed[..2] == l.pool.claimed[..2]
    && l' == l.(pool := l.pool.(claimed := l'.pool.claimed), rewardVaults := l'.rewardVaults,
                personals := l.personals[i := l.personals[i].(owed := l'.personals[i].owed)])
  }

  lemma OneRewardIsPaid(l: Ledger, i: nat, k: nat)
    requires i < |l.personals| && k < 3 && CollectReward(l, i, k).Ok?
    ensures var l' := CollectReward(l, i, k).value;
            && |l'.personals| == |l.personals| && OnlyRewardsPaid(l, l', i)
            && RewardPaid(l, l', i, k, true) && forall m :: 0 <= m < 3 && m != k ==> RewardPaid(l, l', i, m, false)
  {}

  lemma PaidInTurn(l: Ledger, next: Ledger, l': Ledger, i: nat, m: nat, first: bool, second: bool)
    requires i < |l.personals| && |l'.personals| == |next.personals| == |l.personals| && m < 3
    requires RewardPaid(l, next, i, m, first) && RewardPaid(next, l', i, m, second) && !(first && second)
    ensures RewardPaid(l, l', i, m, first || second)
  {}

  lemma {:induction false} RewardsFromArePaid(l: Ledger, i: nat, k: nat)
    requires i < |l.personals| && k <= 3 && CollectRewardsFrom(l, i, k).Ok?
    ensures var l' := CollectRewardsFrom(l, i, k).value;
            && |l'.personals| == |l.personals| && OnlyRewardsPaid(l, l', i)
            && forall m :: 0 <= m < 3 ==> RewardPaid(l, l', i, m, SetUp(l.pool.rewards, k, m))
    decreases 3 - k
  {
    hide CollectReward, RewardPaid;
    var l' := CollectRewardsFrom(l, i, k).value;
    if k == 3 || !l.pool.rewards[k].initialized {
      forall m | 0 <= m < 3 ensures RewardPaid(l, l', i, m, SetUp(l.pool.rewards, k, m)) {
        assert !SetUp(l.pool.rewards, k, m);
        NothingIsPaid(l, i, m);
      }
    } else {
      OneRewardIsPaid(l, i, k);
      var next := CollectReward(l, i, k).value;
      RewardsFromArePaid(next, i, k + 1);
      forall m | 0 <= m < 3 ensures RewardPaid(l, l', i, m, SetUp(l.pool.rewards, k, m)) {
        PaidInTurn(l, next, l', i, m, m == k, SetUp(next.pool.rewards, k + 1, m));
        assert SetUp(l.pool.rewards, k, m) == (m == k || SetUp(next.pool.rewards, k + 1, m));
      }
    }
  }

  lemma NothingIsPaid(l: Ledger, i: nat, m: nat)
    requires i < |l.personals| && m < 3
    ensures RewardPaid(l, l, i, m, false) && OnlyRewardsPaid(l, l, i)
  {}

  /** `collect_rewards`, or its absence where collecting rewards is switched off */
  lemma RewardsArePaid(l: Ledger, i: nat, on: bool, l': Ledger)
    requires i < |l.personals| && (if on then CollectRewardsFrom(l, i, 0) == Ok(l') else l' == l)
    ensures RewardsPaid(l, l', i, on)
  {
    hide CollectRewardsFrom, RewardPaid, OnlyRewardsPaid;
    if on {
      RewardsFromArePaid(l, i, 0);
      forall m | 0 <= m < 3 ensures RewardPaid(l, l', i, m, Pays(l, m, on)) {}
    } else {
      forall m | 0 <= m < 3 ensures RewardPaid(l, l, i, m, Pays(l, m, on)) { NothingIsPaid(l, i, m); }
      NothingIsPaid(l, i, 0);
    }
  }

  // -----------------------------------------------------------------------------------------
  // Fees against the vaults

  /** What is yet to be claimed of some token's fees is all that its vault holds, or more. */
  predicate FeesReachVault(l: Ledger) {
    exists k :: 0 <= k < 2 && l.vaults[k] != 0 && l.vaults[k] + l.pool.claimed[k] <= l.pool.total[k]
  }

  /** `check_unclaimed_fees_and_vault` */
  lemma CheckIs(l: Ledger)
    ensures CheckUnclaimedFees(l).Ok? <==> l.pool.claimed[0] <= l.pool.total[0] && l.pool.claimed[1] <= l.pool.total[1]
    ensures var disabled := if FeesReachVault(l) then l.pool.disabled + {CollectFeeOp} else l.pool.disabled;
            CheckUnclaimedFees(l).Ok? ==> CheckUnclaimedFees(l).value == l.(pool := l.pool.(disabled := disabled))
  {
    assert FeesReachVault(l) <==> (l.vaults[0] != 0 && l.vaults[0] + l.pool.claimed[0] <= l.pool.total[0]) ||
                                  (l.vaults[1] != 0 && l.vaults[1] + l.pool.claimed[1] <= l.pool.total[1]);
  }

  /** Only the vaults and the fee figures matter to it. */
  lemma FeesReachFrame(l: Ledger, l': Ledger)
    requires l'.vaults == l.vaults && l'.pool.claimed[..2] == l.pool.claimed[..2] && l'.pool.total[..2] == l.pool.total[..2]
    ensures FeesReachVault(l') == FeesReachVault(l)
  {
    assert forall k :: 0 <= k < 2 ==> l'.pool.claimed[..2][k] == l'.pool.claimed[k] && l.pool.claimed[..2][k] == l.pool.claimed[k];
    assert forall k :: 0 <= k < 2 ==> l'.pool.total[..2][k] == l'.pool.total[k] && l.pool.total[..2][k] == l.pool.total[k];
  }
}
