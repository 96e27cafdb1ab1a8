/** Setting rewards up and changing them (programs/amm/src/instructions/initialize_reward.rs,
    set_reward_params.rs, collect_remaining_rewards.rs), and the times they keep. */
module RewardAdmin {
  import opened Wrappers
  import opened FullMath
  import opened PoolTypes
  import opened TickGrowth
  import opened Ledger
  import opened Invariants
  import opened PositionLemmas
  import opened Vaults
  import opened PositionSafety
  import DecreaseSafety

  const MIN_REWARD_PERIOD: nat := 7 * 24 * 60 * 60
  const MAX_REWARD_PERIOD: nat := 90 * 24 * 60 * 60
  const INCREASE_EMISSIONES_PERIOD: nat := 72 * 60 * 60

  predicate PeriodInRange(period: nat) {
    MIN_REWARD_PERIOD <= period <= MAX_REWARD_PERIOD
  }

  function SaturatingSub(x: nat, y: nat): nat {
    if y <= x then x - y else 0
  }

  /** Tokens for `period` seconds at an emission rate, rounded up. */
  function FundingCeil(period: nat, emissions: nat): Result<nat> {
    var amount :- MulDivCeil256(period, emissions, Q64);
    Narrow(amount, U64_LIMIT)
  }

  function FundingFloor(period: nat, emissions: nat): Result<nat> {
    var amount :- MulDivFloor256(period, emissions, Q64);
    Narrow(amount, U64_LIMIT)
  }

  /** A reward that starts over, and what it costs. */
  function Restarted(r: RewardInfo, emissions: nat, openTime: nat, endTime: nat): Result<(RewardInfo, nat)> {
    var amount :- FundingCeil(SaturatingSub(endTime, openTime), emissions);
    Ok((r.(openTime := openTime, lastUpdateTime := openTime, endTime := endTime, emissionsPerSecond := emissions), amount))
  }

  /** `normal_update`, by the pool's owner */
  function NormalUpdate(r: RewardInfo, now: nat, emissions: nat, openTime: nat, endTime: nat): Result<(RewardInfo, nat)> {
    if r.lastUpdateTime == r.endTime then
      var period :- CheckedSub(endTime, openTime);
      var _ :- Require(PeriodInRange(period), InvalidRewardPeriod);
      Restarted(r, emissions, openTime, endTime)
    else
      var left :- CheckedSub(r.endTime, now);
      var extension :- CheckedSub(endTime, r.endTime);
      var _ :- Require(PeriodInRange(extension), NotApproveUpdateRewardEmissiones);
      var _ :- Require(emissions < r.emissionsPerSecond ==> INCREASE_EMISSIONES_PERIOD > left, RequireViolated);
      var more :- FundingFloor(left, SaturatingSub(emissions, r.emissionsPerSecond));
      var forExtension :- FundingFloor(extension, emissions);
      var amount :- Narrow(more + forExtension, U64_LIMIT);
      Ok((r.(emissionsPerSecond := emissions, endTime := endTime), amount))
  }

  /** `admin_update`, by an operation owner */
  function AdminUpdate(r: RewardInfo, now: nat, emissions: nat, openTime: nat, endTime: nat): Result<(RewardInfo, nat)> {
    if r.lastUpdateTime == r.endTime || r.openTime > now then
      var period :- CheckedSub(endTime, openTime);
      var _ :- Require(period != 0, InvalidRewardPeriod);
      Restarted(r, emissions, openTime, endTime)
    else
      var left :- CheckedSub(r.endTime, now);
      var more :- FundingFloor(left, SaturatingSub(emissions, r.emissionsPerSecond));
      var forExtension :- FundingFloor(SaturatingSub(endTime, r.endTime), emissions);
      var amount :- Narrow(more + forExtension, U64_LIMIT);
      Ok((r.(emissionsPerSecond := emissions, endTime := endTime), amount))
  }

  /** Replace reward `k` and take in its funding. */
  function WithReward(l: Ledger, k: nat, r: RewardInfo, funding: nat): Ledger
    requires k < REWARD_NUM
  {
    l.(pool := l.pool.(rewards := l.pool.rewards[k := r]), rewardVaults := l.rewardVaults[k := l.rewardVaults[k] + funding])
  }

  /** `set_reward_params` */
  function SetRewardParams(l: Ledger, k: nat, emissions: nat, openTime: nat, endTime: nat, byAdmin: bool): Result<Ledger> {
    if k >= REWARD_NUM then Err(AssertionFailed)
    else
      var _ :- Require(endTime > openTime && emissions > 0, RequireViolated);
      var _ :- Require(openTime > l.now, RequireViolated);
      var pool :- UpdateRewardInfos(l.pool, l.now);
      var r := pool.rewards[k];
      var _ :- Require(r.initialized, UnInitializedRewardInfo);
      var _ :- Require(byAdmin || l.now > r.openTime, NotApproved);
      var (updated, funding) :- if byAdmin then AdminUpdate(r, l.now, emissions, openTime, endTime)
                                else NormalUpdate(r, l.now, emissions, openTime, endTime);
      Ok(WithReward(l.(pool := pool), k, updated, funding))
  }

  /** The lowest reward not yet initialized. */
  function FreeReward(rewards: Rewards): Option<nat> {
    if !rewards[0].initialized then Some(0)
    else if !rewards[1].initialized then Some(1)
    else if !rewards[2].initialized then Some(2)
    else None
  }

  /** `initialize_reward` */
  function InitializeReward(l: Ledger, emissions: nat, openTime: nat, endTime: nat): Result<Ledger> {
    var _ :- Require(openTime < endTime && l.now <= openTime && emissions != 0, InvalidRewardInitParam);
    var _ :- Require(PeriodInRange(endTime - openTime), InvalidRewardPeriod);
    var funding :- FundingCeil(endTime - openTime, emissions);
    match FreeReward(l.pool.rewards)
    case None => Err(FullRewardInfo)
    case Some(k) => Ok(WithReward(l, k, RewardInfo(true, openTime, endTime, openTime, emissions), funding))
  }

  /** `update_reward_infos`, as an instruction of its own */
  function UpdateRewards(l: Ledger): Result<Ledger> {
    var pool :- UpdateRewardInfos(l.pool, l.now);
    Ok(l.(pool := pool))
  }

  /** `collect_remaining_rewards`: what an ended reward's vault holds beyond all emissions. */
  function CollectRemaining(l: Ledger, k: nat): Result<Ledger> {
    if k >= REWARD_NUM then Err(AssertionFailed)
    else
      var pool :- UpdateRewardInfos(l.pool, l.now);
      var r := pool.rewards[k];
      var _ :- Require(r.initialized, UnInitializedRewardInfo);
      var _ :- Require(r.lastUpdateTime == r.endTime, NotApproved);
      var unclaimed :- CheckedSub(pool.total[2 + k], pool.claimed[2 + k]);
      var remaining :- CheckedSub(l.rewardVaults[k], unclaimed);
      Ok(l.(pool := pool, rewardVaults := l.rewardVaults[k := l.rewardVaults[k] - remaining]))
  }

  // -----------------------------------------------------------------------------------------
  // Times

  /** A reward's last update lies within its period, and not in the future unless the period has yet
      to open. */
  predicate TimesOk(r: RewardInfo, now: nat) {
    r.initialized ==> r.openTime <= r.lastUpdateTime <= r.endTime && (r.lastUpdateTime <= now || r.lastUpdateTime == r.openTime)
  }

  predicate TimesInv(rewards: Rewards, now: nat) {
    forall k :: 0 <= k < 3 ==> TimesOk(rewards[k], now)
  }

  /** Time passing keeps it. */
  lemma TimePasses(rewards: Rewards, now: nat, later: nat)
    requires TimesInv(rewards, now) && now <= later
    ensures TimesInv(rewards, later)
  {}

  /** Updating at the current time, or at an earlier one as the swap does when it cuts the clock to
      32 bits, keeps it; and at the current time the time subtraction never goes below zero. */
  lemma UpdateKeepsTimes(pool: PoolState, i: nat, timestamp: nat, now: nat)
    requires i < REWARD_NUM && TimesInv(pool.rewards, now) && timestamp <= now
    ensures var r := UpdateReward(pool, i, timestamp);
            (r.Ok? ==> TimesInv(r.value.rewards, now)) && (r.Err? && timestamp == now ==> r.error == Overflow)
  {
    assert TimesOk(pool.rewards[i], now);
    var r := pool.rewards[i];
    if r.initialized && timestamp > r.openTime && pool.liquidity > 0 && r.lastUpdateTime <= Min(timestamp, r.endTime) {
      var timeDelta := Min(timestamp, r.endTime) - r.lastUpdateTime;
      MulDivFloorIs(timeDelta, r.emissionsPerSecond, pool.liquidity, U256_LIMIT, U128_LIMIT);
      MulDivCeilIs(timeDelta, r.emissionsPerSecond, Q64, U256_LIMIT, U128_LIMIT);
    }
  }

  lemma {:induction false} UpdatesKeepTimes(pool: PoolState, i: nat, timestamp: nat, now: nat)
    requires i <= REWARD_NUM && TimesInv(pool.rewards, now) && timestamp <= now
    ensures var r := UpdateRewardsFrom(pool, i, timestamp);
            (r.Ok? ==> TimesInv(r.value.rewards, now)) && (r.Err? && timestamp == now ==> r.error == Overflow)
    decreases REWARD_NUM - i
  {
    hide UpdateReward, TimesInv;
    if i < REWARD_NUM {
      UpdateKeepsTimes(pool, i, timestamp, now);
      var next := UpdateReward(pool, i, timestamp);
      if next.Ok? { UpdatesKeepTimes(next.value, i + 1, timestamp, now); }
    }
  }

  /** After an update at the current time an open reward is up to date. */
  lemma UpdatedReward(pool: PoolState, i: nat, timestamp: nat, k: nat)
    requires i <= REWARD_NUM && k < REWARD_NUM && UpdateRewardsFrom(pool, i, timestamp).Ok?
    ensures var r, r' := pool.rewards[k], UpdateRewardsFrom(pool, i, timestamp).value.rewards[k];
            r' == r.(lastUpdateTime := r'.lastUpdateTime) &&
            r'.lastUpdateTime == if k >= i && r.initialized && timestamp > r.openTime then Min(timestamp, r.endTime) else r.lastUpdateTime
    decreases REWARD_NUM - i
  {
    hide MulDivFloor, MulDivCeil;
    if i < REWARD_NUM {
      var next := UpdateReward(pool, i, timestamp).value;
      UpdatedReward(next, i + 1, timestamp, k);
    }
  }

  lemma FundingOnlyOverflows(period: nat, emissions: nat)
    ensures FundingCeil(period, emissions).Err? ==> FundingCeil(period, emissions).error == Overflow
    ensures FundingFloor(period, emissions).Err? ==> FundingFloor(period, emissions).error == Overflow
  {
    MulDivFloorIs(period, emissions, Q64, U256_LIMIT, U128_LIMIT);
    MulDivCeilIs(period, emissions, Q64, U256_LIMIT, U128_LIMIT);
  }

  /** Both ways of changing a reward keep its times, and neither subtraction of times that involves
      the clock can fail; only an extension that shortens the period is refused that way. */
  lemma ChangeKeepsTimes(r: RewardInfo, now: nat, emissions: nat, openTime: nat, endTime: nat, byAdmin: bool)
    requires r.initialized && TimesOk(r, now) && now < openTime < endTime
    requires now > r.openTime ==> r.lastUpdateTime == Min(now, r.endTime)
    requires byAdmin || now > r.openTime
    ensures var c := if byAdmin then AdminUpdate(r, now, emissions, openTime, endTime) else NormalUpdate(r, now, emissions, openTime, endTime);
            (c.Ok? ==> c.value.0.initialized && TimesOk(c.value.0, now)) &&
            (c.Err? && c.error == Underflow ==> !byAdmin && endTime < r.endTime)
  {
    hide FundingCeil, FundingFloor;
    FundingOnlyOverflows(SaturatingSub(endTime, openTime), emissions);
    var left := SaturatingSub(r.endTime, now);
    FundingOnlyOverflows(left, SaturatingSub(emissions, r.emissionsPerSecond));
    FundingOnlyOverflows(SaturatingSub(endTime, r.endTime), emissions);
  }

  lemma SetRewardParamsKeepsTimes(l: Ledger, k: nat, emissions: nat, openTime: nat, endTime: nat, byAdmin: bool)
    requires TimesInv(l.pool.rewards, l.now)
    ensures var r := SetRewardParams(l, k, emissions, openTime, endTime, byAdmin);
            (r.Ok? ==> TimesInv(r.value.pool.rewards, l.now)) &&
            (r.Err? && r.error == Underflow ==> !byAdmin && k < REWARD_NUM && endTime < l.pool.rewards[k].endTime)
  {
    hide AdminUpdate, NormalUpdate, UpdateRewardInfos;
    UpdateInfosKeepTimes(l.pool, l.now, l.now);
    var pool := UpdateRewardInfos(l.pool, l.now);
    if k < REWARD_NUM && pool.Ok? {
      UpdatedInfo(l.pool, l.now, k);
      var r := pool.value.rewards[k];
      if r.initialized && l.now < openTime < endTime && (byAdmin || l.now > r.openTime) {
        ChangeKeepsTimes(r, l.now, emissions, openTime, endTime, byAdmin);
      }
    }
  }

  lemma UpdateInfosKeepTimes(pool: PoolState, timestamp: nat, now: nat)
    requires TimesInv(pool.rewards, now) && timestamp <= now
    ensures var r := UpdateRewardInfos(pool, timestamp);
            (r.Ok? ==> TimesInv(r.value.rewards, now)) && (r.Err? && timestamp == now ==> r.error == Overflow)
  {
    UpdatesKeepTimes(pool, 0, timestamp, now);
  }

  // -----------------------------------------------------------------------------------------
  // A clock that is cut short

  /** At `timestamp` reward `i` has run past it already. */
  predicate RunsBackwards(pool: PoolState, i: nat, timestamp: nat)
    requires i < REWARD_NUM
  {
    var r := pool.rewards[i];
    0 < pool.liquidity && r.initialized && r.openTime < timestamp && Min(timestamp, r.endTime) < r.lastUpdateTime
  }

  predicate ClockBehind(pool: PoolState, timestamp: nat) {
    exists i :: 0 <= i < REWARD_NUM && RunsBackwards(pool, i, timestamp)
  }

  /** One reward's update fails for an overflow, or because the reward has run past the time given. */
  lemma UpdateFailsOnlyBy(pool: PoolState, i: nat, timestamp: nat)
    requires i < REWARD_NUM
    ensures var r := UpdateReward(pool, i, timestamp);
            && (RunsBackwards(pool, i, timestamp) ==> r == Err(Underflow))
            && (r.Err? ==> r.error == Overflow || RunsBackwards(pool, i, timestamp))
            && (r.Ok? ==> r.value.liquidity == pool.liquidity &&
                          forall k :: 0 <= k < REWARD_NUM && k != i ==> r.value.rewards[k] == pool.rewards[k])
  {
    hide MulDivFloor, MulDivCeil;
    var r := pool.rewards[i];
    if r.initialized && timestamp > r.openTime && pool.liquidity > 0 && r.lastUpdateTime <= Min(timestamp, r.endTime) {
      var timeDelta := Min(timestamp, r.endTime) - r.lastUpdateTime;
      MulDivFloorIs(timeDelta, r.emissionsPerSecond, pool.liquidity, U256_LIMIT, U128_LIMIT);
      MulDivCeilIs(timeDelta, r.emissionsPerSecond, Q64, U256_LIMIT, U128_LIMIT);
    }
  }

  lemma {:induction false} UpdatesFailOnlyBy(pool: PoolState, i: nat, timestamp: nat)
    requires i <= REWARD_NUM
    ensures var r, behind := UpdateRewardsFrom(pool, i, timestamp), exists k :: i <= k < REWARD_NUM && RunsBackwards(pool, k, timestamp);
            (behind ==> r.Err?) && (r.Err? ==> r.error == Overflow || (r.error == Underflow && behind))
    decreases REWARD_NUM - i
  {
    hide UpdateReward;
    if i < REWARD_NUM {
      UpdateFailsOnlyBy(pool, i, timestamp);
      var next := UpdateReward(pool, i, timestamp);
      if next.Ok? {
        UpdatesFailOnlyBy(next.value, i + 1, timestamp);
        assert forall k :: i < k < REWARD_NUM ==> RunsBackwards(next.value, k, timestamp) == RunsBackwards(pool, k, timestamp);
      }
    }
  }

  /** Bringing the rewards up to date fails when some reward has run past the time given, and else for an
      overflow only. */
  lemma InfosFailOnlyBy(pool: PoolState, timestamp: nat)
    ensures var r := UpdateRewardInfos(pool, timestamp);
            (ClockBehind(pool, timestamp) ==> r.Err?) &&
            (r.Err? ==> r.error == Overflow || (r.error == Underflow && ClockBehind(pool, timestamp)))
  {
    UpdatesFailOnlyBy(pool, 0, timestamp);
  }

  /** The full clock never is behind. */
  lemma ClockIsNotBehind(pool: PoolState, now: nat)
    requires TimesInv(pool.rewards, now)
    ensures !ClockBehind(pool, now)
  {
    forall i | 0 <= i < REWARD_NUM ensures !RunsBackwards(pool, i, now) {
      assert TimesOk(pool.rewards[i], now);
    }
  }

  lemma UpdatedInfo(pool: PoolState, timestamp: nat, k: nat)
    requires k < REWARD_NUM && UpdateRewardInfos(pool, timestamp).Ok?
    ensures var r, r' := pool.rewards[k], UpdateRewardInfos(pool, timestamp).value.rewards[k];
            r' == r.(lastUpdateTime := r'.lastUpdateTime) &&
            r'.lastUpdateTime == if r.initialized && timestamp > r.openTime then Min(timestamp, r.endTime) else r.lastUpdateTime
  {
    UpdatedReward(pool, 0, timestamp, k);
  }

  // -----------------------------------------------------------------------------------------
  // Emission over time

  /** What one update adds: the growth and the emission of the time since the last update, as far as it
      lies within the reward's period. */
  lemma RewardStepIs(pool: PoolState, i: nat, timestamp: nat) returns (elapsed: nat)
    requires i < REWARD_NUM && UpdateReward(pool, i, timestamp).Ok?
    ensures var r, pool' := pool.rewards[i], UpdateReward(pool, i, timestamp).value;
            var runs := r.initialized && timestamp > r.openTime;
            && pool'.rewards == pool.rewards[i := r.(lastUpdateTime := if runs then Min(timestamp, r.endTime) else r.lastUpdateTime)]
            && pool'.liquidity == pool.liquidity
            && (runs && pool.liquidity > 0 ==> elapsed == Min(timestamp, r.endTime) - r.lastUpdateTime)
            && (!runs ==> elapsed == 0)
            && (if pool.liquidity == 0 then pool'.growthGlobal == pool.growthGlobal && pool'.total == pool.total
                else IsFloor(pool'.growthGlobal[2 + i] - pool.growthGlobal[2 + i], elapsed * r.emissionsPerSecond, pool.liquidity) &&
                     IsCeil(pool'.total[2 + i] - pool.total[2 + i], elapsed * r.emissionsPerSecond, Q64))
  {
    hide MulDivFloor, MulDivCeil;
    var r := pool.rewards[i];
    elapsed := 0;
    if r.initialized && timestamp > r.openTime && pool.liquidity > 0 {
      elapsed := Min(timestamp, r.endTime) - r.lastUpdateTime;
      MulDivFloorIs(elapsed, r.emissionsPerSecond, pool.liquidity, U256_LIMIT, U128_LIMIT);
      MulDivCeilIs(elapsed, r.emissionsPerSecond, Q64, U256_LIMIT, U128_LIMIT);
    }
  }

  /** Updating in between makes no difference but for rounding: the same time counts, the growth loses
      at most one unit and the emission gains at most one. */
  lemma UpdatingInBetween(pool: PoolState, i: nat, t1: nat, t2: nat, middle: PoolState, late: PoolState, once: PoolState)
    requires i < REWARD_NUM && t1 <= t2
    requires UpdateReward(pool, i, t1) == Ok(middle) && UpdateReward(middle, i, t2) == Ok(late) && UpdateReward(pool, i, t2) == Ok(once)
    ensures late.rewards == once.rewards
    ensures late.growthGlobal[2 + i] <= once.growthGlobal[2 + i] <= late.growthGlobal[2 + i] + 1
    ensures once.total[2 + i] <= late.total[2 + i] <= once.total[2 + i] + 1
  {
    hide UpdateReward, IsFloor, IsCeil;
    var r := pool.rewards[i];
    var first := RewardStepIs(pool, i, t1);
    var second := RewardStepIs(middle, i, t2);
    var whole := RewardStepIs(pool, i, t2);
    if pool.liquidity > 0 {
      assert whole == first + second;
      assert whole * r.emissionsPerSecond == first * r.emissionsPerSecond + second * r.emissionsPerSecond;
      var g: int, g1: int, g2: int, h: int :=
        pool.growthGlobal[2 + i], middle.growthGlobal[2 + i], late.growthGlobal[2 + i], once.growthGlobal[2 + i];
      FloorsAddUp(g1 - g, g2 - g1, h - g, first * r.emissionsPerSecond, second * r.emissionsPerSecond, pool.liquidity);
      var e: int, e1: int, e2: int, f: int := pool.total[2 + i], middle.total[2 + i], late.total[2 + i], once.total[2 + i];
      CeilsAddUp(e1 - e, e2 - e1, f - e, first * r.emissionsPerSecond, second * r.emissionsPerSecond, Q64);
    }
  }

  /** What reward `i` emits at `timestamp` if the pool has liquidity, in units of 2^-64. */
  function DueX64(pool: PoolState, i: nat, timestamp: nat): int
    requires i < REWARD_NUM
  {
    var r := pool.rewards[i];
    if r.initialized && timestamp > r.openTime then (Min(timestamp, r.endTime) - r.lastUpdateTime) * r.emissionsPerSecond else 0
  }

  function Remainder(n: int, d: int): int
    requires 0 < d
  {
    n % d
  }

  lemma RemainderIs(q: int, n: int, d: int)
    requires 0 < d && IsFloor(q, n, d)
    ensures Remainder(n, d) == n - q * d
  {
    var q' := n / d;
    if q' < q { MulLe(q' + 1, q, d); }
    if q < q' { MulLe(q + 1, q', d); }
  }

  lemma Twice(f: int, g: int, d: int)
    ensures (f + g) * d == f * d + g * d && (f + g + 1) * d == f * d + g * d + d && (f + g - 1) * d == f * d + g * d - d
  {}

  /** Rounding down in two pieces loses one unit exactly where the remainders make up a whole. */
  lemma FloorsMiss(f: int, g: int, h: int, n: int, m: int, d: int)
    requires 0 < d && IsFloor(f, n, d) && IsFloor(g, m, d) && IsFloor(h, n + m, d)
    ensures h == f + g + (if Remainder(n, d) + Remainder(m, d) >= d then 1 else 0)
  {
    hide Remainder;
    FloorsAddUp(f, g, h, n, m, d);
    RemainderIs(f, n, d);
    RemainderIs(g, m, d);
    Twice(f, g, d);
    if h == f + g { assert h * d == f * d + g * d; } else { assert h * d == f * d + g * d + d; }
  }

  lemma CeilRemainder(q: int, n: int, d: int)
    requires 0 < d && IsCeil(q, n, d)
    ensures Remainder(n, d) == if n == q * d then 0 else n - q * d + d
  {
    hide Remainder;
    if n == q * d {
      RemainderIs(q, n, d);
    } else {
      assert (q - 1) * d == q * d - d;
      RemainderIs(q - 1, n, d);
    }
  }

  /** Rounding up in two pieces adds one unit exactly where both leave a remainder and the two fit into one. */
  lemma CeilsExceed(f: int, g: int, h: int, n: int, m: int, d: int)
    requires 0 < d && IsCeil(f, n, d) && IsCeil(g, m, d) && IsCeil(h, n + m, d)
    ensures var a, b := Remainder(n, d), Remainder(m, d);
            f + g == h + (if 0 < a && 0 < b && a + b <= d then 1 else 0)
  {
    hide Remainder;
    CeilsAddUp(f, g, h, n, m, d);
    CeilRemainder(f, n, d);
    CeilRemainder(g, m, d);
    Twice(f, g, d);
    if h == f + g { assert h * d == f * d + g * d; } else { assert h * d == f * d + g * d - d; }
  }

  /** When exactly an update in between makes a difference: the growth loses a unit where the two
      remainders by the liquidity make up a whole, and the emission gains one where both pieces leave a
      part of a token and the parts together are no more than one. */
  lemma UpdatingInBetweenExactly(pool: PoolState, i: nat, t1: nat, t2: nat, middle: PoolState, late: PoolState, once: PoolState)
    requires i < REWARD_NUM && t1 <= t2
    requires UpdateReward(pool, i, t1) == Ok(middle) && UpdateReward(middle, i, t2) == Ok(late) && UpdateReward(pool, i, t2) == Ok(once)
    ensures var a, b := DueX64(pool, i, t1), DueX64(middle, i, t2);
            && once.growthGlobal[2 + i] == late.growthGlobal[2 + i]
                 + (if pool.liquidity > 0 && Remainder(a, pool.liquidity) + Remainder(b, pool.liquidity) >= pool.liquidity then 1 else 0)
            && late.total[2 + i] == once.total[2 + i]
                 + (if pool.liquidity > 0 && 0 < Remainder(a, Q64) && 0 < Remainder(b, Q64) && Remainder(a, Q64) + Remainder(b, Q64) <= Q64
                    then 1 else 0)
  {
    hide UpdateReward, IsFloor, IsCeil, Remainder;
    var r := pool.rewards[i];
    var first := RewardStepIs(pool, i, t1);
    var second := RewardStepIs(middle, i, t2);
    var whole := RewardStepIs(pool, i, t2);
    if pool.liquidity > 0 {
      assert whole * r.emissionsPerSecond == first * r.emissionsPerSecond + second * r.emissionsPerSecond;
      var g: int, g1: int, g2: int, h: int :=
        pool.growthGlobal[2 + i], middle.growthGlobal[2 + i], late.growthGlobal[2 + i], once.growthGlobal[2 + i];
      FloorsMiss(g1 - g, g2 - g1, h - g, first * r.emissionsPerSecond, second * r.emissionsPerSecond, pool.liquidity);
      var e: int, e1: int, e2: int, f: int := pool.total[2 + i], middle.total[2 + i], late.total[2 + i], once.total[2 + i];
      CeilsExceed(e1 - e, e2 - e1, f - e, first * r.emissionsPerSecond, second * r.emissionsPerSecond, Q64);
    }
  }

  // -----------------------------------------------------------------------------------------
  // Funding

  /** What a reward is still scheduled to emit after `now`, in units of 2^-64. */
  function Scheduled(r: RewardInfo, now: nat): int {
    (r.endTime - now) * r.emissionsPerSecond
  }

  lemma FundingIs(period: nat, emissions: nat)
    ensures FundingFloor(period, emissions).Ok? ==> IsFloor(FundingFloor(period, emissions).value, period * emissions, Q64)
    ensures FundingCeil(period, emissions).Ok? ==> IsCeil(FundingCeil(period, emissions).value, period * emissions, Q64)
  {
    MulDivFloorIs(period, emissions, Q64, U256_LIMIT, U128_LIMIT);
    MulDivCeilIs(period, emissions, Q64, U256_LIMIT, U128_LIMIT);
  }

  lemma ScheduleGrows(left: int, extension: int, before: int, after: int)
    ensures (left + extension) * after - left * before == left * (after - before) + extension * after
    ensures 0 <= left && after <= before ==> left * (after - before) <= 0
    ensures extension <= 0 <= after ==> extension * after <= 0
  {
    if 0 <= left && after <= before { MulLe(after - before, 0, left); }
    if extension <= 0 <= after { MulLe(extension, 0, after); }
  }

  /** Changing a running reward is paid for to within two units, both parts being rounded down; a lower
      rate or an earlier end gives nothing back. A reward that starts over is paid for in full. */
  lemma FundingFollowsSchedule(r: RewardInfo, now: nat, emissions: nat, openTime: nat, endTime: nat, byAdmin: bool)
    requires now < openTime < endTime && (byAdmin || r.openTime <= now)
    requires (if byAdmin then AdminUpdate(r, now, emissions, openTime, endTime) else NormalUpdate(r, now, emissions, openTime, endTime)).Ok?
    ensures var (r', funding) := (if byAdmin then AdminUpdate(r, now, emissions, openTime, endTime)
                                  else NormalUpdate(r, now, emissions, openTime, endTime)).value;
            if r.lastUpdateTime == r.endTime || r.openTime > now then IsCeil(funding, (endTime - openTime) * emissions, Q64)
            else Scheduled(r', now) - Scheduled(r, now) < Q64 * (funding + 2) &&
                 (r.emissionsPerSecond <= emissions && r.endTime <= endTime ==> Q64 * funding <= Scheduled(r', now) - Scheduled(r, now))
  {
    hide FundingFloor, FundingCeil;
    FundingIs(SaturatingSub(endTime, openTime), emissions);
    if r.lastUpdateTime != r.endTime && r.openTime <= now {
      var left, extension := r.endTime - now, endTime - r.endTime;
      FundingIs(left, SaturatingSub(emissions, r.emissionsPerSecond));
      FundingIs(SaturatingSub(endTime, r.endTime), emissions);
      ScheduleGrows(left, extension, r.emissionsPerSecond, emissions);
    }
  }

  // -----------------------------------------------------------------------------------------
  // The other invariants

  /** Changing a reward's times and rate keeps every invariant. */
  lemma WithRewardKeepsInv(l: Ledger, k: nat, r: RewardInfo, funding: nat)
    requires Inv(l) && k < REWARD_NUM && r.initialized
    ensures Inv(WithReward(l, k, r, funding))
  {
    hide AccrualInv, ClaimsCovered, HoldingsInv, VaultSolvent;
    var l' := WithReward(l, k, r, funding);
    ClaimsFrame(l, l');
    VaultsFrame(l, l');
  }

  lemma SetRewardParamsKeepsInv(l: Ledger, k: nat, emissions: nat, openTime: nat, endTime: nat, byAdmin: bool, l': Ledger)
    requires Inv(l) && SetRewardParams(l, k, emissions, openTime, endTime, byAdmin) == Ok(l')
    ensures Inv(l')
  {
    hide Inv, FundingCeil, FundingFloor, UpdateRewardInfos;
    WithRewardsKeepsInv(l, l.now);
    var pool := UpdateRewardInfos(l.pool, l.now).value;
    WithRewardKeepsInv(l.(pool := pool), k, l'.pool.rewards[k], l'.rewardVaults[k] - l.rewardVaults[k]);
  }

  lemma InitializeRewardKeepsInv(l: Ledger, emissions: nat, openTime: nat, endTime: nat, l': Ledger)
    requires Inv(l) && InitializeReward(l, emissions, openTime, endTime) == Ok(l')
    ensures Inv(l') && (TimesInv(l.pool.rewards, l.now) ==> TimesInv(l'.pool.rewards, l'.now))
  {
    hide Inv, FundingCeil;
    var k := FreeReward(l.pool.rewards).value;
    WithRewardKeepsInv(l, k, l'.pool.rewards[k], l'.rewardVaults[k] - l.rewardVaults[k]);
  }

  lemma CollectRemainingKeepsInv(l: Ledger, k: nat, l': Ledger)
    requires Inv(l) && CollectRemaining(l, k) == Ok(l')
    ensures Inv(l')
  {
    hide Inv, UpdateRewardInfos;
    WithRewardsKeepsInv(l, l.now);
    DecreaseSafety.SettingsFrame(l.(pool := l'.pool), l.config, l'.pool.disabled, l'.rewardVaults);
  }
}
