/** The updates of single accounts as the source performs them, step by step and loop by loop, proved
    against the functions the ledger uses (programs/amm/src/states/pool.rs, tick_array.rs,
    protocol_position.rs, personal_position.rs and instructions/open_position.rs, increase_liquidity.rs). */
module Accounts {
  import opened Wrappers
  import opened FullMath
  import opened LiquidityMath
  import opened PoolTypes
  import opened TickGrowth
  import opened Ledger
  import PositionLemmas
  import opened RewardAdmin

  /** Both succeed with the same value, or both fail. */
  ghost predicate Agree<T>(a: Result<T>, b: Result<T>) {
    (a.Ok? <==> b.Ok?) && (a.Ok? ==> a.value == b.value)
  }

  /** `update_reward_infos` */
  method UpdateRewardInfosInPlace(before: PoolState, timestamp: nat) returns (r: Result<PoolState>)
    ensures r == UpdateRewardInfos(before, timestamp)
  {
    hide MulDivFloor, MulDivCeil;
    var pool := before;
    for i := 0 to REWARD_NUM
      invariant UpdateRewardsFrom(pool, i, timestamp) == UpdateRewardInfos(before, timestamp)
    {
      var reward := pool.rewards[i];
      if reward.initialized && timestamp > reward.openTime {
        var latest := Min(timestamp, reward.endTime);
        var growth, total := pool.growthGlobal, pool.total;
        if pool.liquidity != 0 {
          var timeDelta :- CheckedSub(latest, reward.lastUpdateTime);
          var growthDelta :- MulDivFloor256(timeDelta, reward.emissionsPerSecond, pool.liquidity);
          var newGrowth :- Narrow(growth[2 + i] + growthDelta, U128_LIMIT);
          growth := growth[2 + i := newGrowth];
          var emitted :- MulDivCeil128(timeDelta, reward.emissionsPerSecond, Q64);
          emitted :- Narrow(emitted, U64_LIMIT);
          var newTotal :- Narrow(total[2 + i] + emitted, U64_LIMIT);
          total := total[2 + i := newTotal];
        }
        reward := reward.(lastUpdateTime := latest);
        pool := pool.(growthGlobal := growth, total := total, rewards := pool.rewards[i := reward]);
      }
    }
    return Ok(pool);
  }

  /** `TickState::update` */
  method UpdateTickInPlace(before: TickState, tickCurrent: int, delta: int, growthGlobal: Five, upper: bool)
    returns (r: Result<(TickState, bool)>)
    ensures r == UpdateTick(before, tickCurrent, delta, growthGlobal, upper)
  {
    var t := before;
    var grossAfter :- AddDelta(t.liquidityGross, delta);
    var flipped := (grossAfter == 0) != (t.liquidityGross == 0);
    if t.liquidityGross == 0 {
      if t.tick <= tickCurrent {
        t := t.(growthOutside := growthGlobal);
      }
    }
    t := t.(liquidityGross := grossAfter);
    var net :- CheckedI128(if upper then t.liquidityNet - delta else t.liquidityNet + delta);
    t := t.(liquidityNet := net);
    return Ok((t, flipped));
  }

  /** `TickState::cross` */
  method CrossTickInPlace(before: TickState, growthGlobal: Five, rewards: Rewards) returns (r: Result<TickState>)
    ensures Agree(r, CrossTick(before, growthGlobal, rewards))
  {
    CrossIs(before, growthGlobal, rewards, 0);
    ghost var crossed := CrossFrom(before, growthGlobal, rewards, 0);
    var outside: seq<nat> := before.growthOutside;
    for c := 0 to 5
      invariant |outside| == 5
      invariant forall d :: 0 <= d < c ==> CrossChannel(before, growthGlobal, rewards, d) == Ok(outside[d])
      invariant forall d :: c <= d < 5 ==> outside[d] == before.growthOutside[d]
    {
      if c < 2 || rewards[c - 2].initialized {
        if growthGlobal[c] < outside[c] {
          CrossFails(before, growthGlobal, rewards, 0, c);
          return Err(Underflow);
        }
        outside := outside[c := growthGlobal[c] - outside[c]];
      }
    }
    assert crossed.Ok? && crossed.value == outside by {
      forall d | 0 <= d < 5 ensures crossed.Ok? && crossed.value[d] == outside[d] {
        assert CrossChannel(before, growthGlobal, rewards, d) == Ok(crossed.value[d - 0]);
      }
    }
    return Ok(before.(growthOutside := outside));
  }

  /** `ProtocolPositionState::update` */
  method UpdateProtocolInPlace(before: ProtocolPosition, tickLower: int, tickUpper: int, delta: int, inside: Five)
    returns (r: Result<ProtocolPosition>)
    ensures Agree(r, UpdateProtocol(before, tickLower, tickUpper, delta, inside))
  {
    hide MulDivFloor;
    if !(MIN_TICK <= tickLower <= MAX_TICK) || !(MIN_TICK <= tickUpper <= MAX_TICK) {
      return Err(TickOverflow);
    }
    var p := before;
    var liquidity := p.liquidity;
    if delta == 0 {
      if p.liquidity == 0 { return Err(InvalidLiquidity); }
    } else {
      liquidity :- AddDelta(p.liquidity, delta);
    }
    var fee0 :- ProtocolFee(inside[0], p.growthInside[0], p.liquidity);
    var fee1 :- ProtocolFee(inside[1], p.growthInside[1], p.liquidity);
    p := p.(liquidity := liquidity, growthInside := inside, tickLower := tickLower, tickUpper := tickUpper);
    var owed0 :- Narrow(p.feesOwed[0] + fee0, U64_LIMIT);
    var owed1 :- Narrow(p.feesOwed[1] + fee1, U64_LIMIT);
    p := p.(feesOwed := [owed0, owed1]);
    return Ok(p);
  }

  /** The fee part of `increase_liquidity` and `decrease_liquidity_and_update_position`, and
      `update_rewards` with its loop over the rewards */
  method CreditInPlace(before: PersonalPosition, inside: Five) returns (r: Result<PersonalPosition>)
    ensures Agree(r, Credit(before, inside))
  {
    hide MulDivFloor, CreditChannel;
    CreditIs(before, inside, 0);
    ghost var credited := CreditFrom(before, inside, 0);
    var p := before;
    for c := 0 to 5
      invariant p == before.(owed := p.owed, growthInside := p.growthInside)
      invariant forall d :: 0 <= d < c ==> CreditChannel(before, inside, d) == Ok(p.owed[d]) && p.growthInside[d] == inside[d]
      invariant forall d :: c <= d < 5 ==> p.owed[d] == before.owed[d] && p.growthInside[d] == before.growthInside[d]
    {
      SameChannel(before, p, inside, c);
      var owed := CreditChannel(p, inside, c);
      if owed.Err? {
        CreditFails(before, inside, 0, c);
        return Err(owed.error);
      }
      p := p.(owed := p.owed[c := owed.value], growthInside := p.growthInside[c := inside[c]]);
    }
    assert credited.Ok? && credited.value == p.owed by {
      forall d | 0 <= d < 5 ensures credited.Ok? && credited.value[d] == p.owed[d] {
        assert CreditChannel(before, inside, d) == Ok(credited.value[d - 0]);
      }
    }
    assert p.growthInside == inside;
    return Ok(p);
  }

  lemma SameChannel(p: PersonalPosition, q: PersonalPosition, inside: Five, c: int)
    requires 0 <= c < 5 && p.liquidity == q.liquidity && p.owed[c] == q.owed[c] && p.growthInside[c] == q.growthInside[c]
    ensures CreditChannel(p, inside, c) == CreditChannel(q, inside, c)
  {}

  /** `modify_position` and the `update_position` it calls */
  method ModifyPositionInPlace(table: PriceTable, pool0: PoolState, protocol0: ProtocolPosition, lower0: TickState, upper0: TickState,
                               delta: int, timestamp: nat) returns (r: Result<Modified>)
    ensures Agree(r, ModifyPosition(table, pool0, protocol0, lower0, upper0, delta, timestamp))
  {
    hide UpdateRewardInfos, UpdateTick, GrowthInside, UpdateProtocol, GetDeltaAmountsSigned, AddDelta;
    var pool :- UpdateRewardInfosInPlace(pool0, timestamp);
    RewardsKeepPlace(pool0, timestamp);
    var lower, upper, flippedLower, flippedUpper := lower0, upper0, false, false;
    if delta != 0 {
      var low :- UpdateTickInPlace(lower, pool0.tickCurrent, delta, pool.growthGlobal, false);
      var up :- UpdateTickInPlace(upper, pool0.tickCurrent, delta, pool.growthGlobal, true);
      lower, flippedLower, upper, flippedUpper := low.0, low.1, up.0, up.1;
      UpdateKeepsName(lower0, pool0.tickCurrent, delta, pool.growthGlobal, false);
      UpdateKeepsName(upper0, pool0.tickCurrent, delta, pool.growthGlobal, true);
    }
    var inside :- GrowthInside(lower, upper, pool0.tickCurrent, pool.growthGlobal, pool.rewards);
    var protocol :- UpdateProtocolInPlace(protocol0, lower.tick, upper.tick, delta, inside);
    if delta < 0 {
      if flippedLower { lower := ClearTick(lower); }
      if flippedUpper { upper := ClearTick(upper); }
    }
    var amount0, amount1 := 0, 0;
    if delta != 0 {
      var priceLower :- PriceAt(table, lower.tick);
      var priceUpper :- PriceAt(table, upper.tick);
      var amounts :- GetDeltaAmountsSigned(pool0.tickCurrent, pool0.sqrtPrice, lower.tick, upper.tick, priceLower, priceUpper, delta);
      amount0, amount1 := amounts.0, amounts.1;
      if lower.tick <= pool0.tickCurrent < upper.tick {
        var liquidity :- AddDelta(pool0.liquidity, delta);
        pool := pool.(liquidity := liquidity);
      }
    }
    return Ok(Modified(pool, protocol, lower, upper, amount0, amount1, flippedLower, flippedUpper));
  }

  lemma UpdateKeepsName(t: TickState, tickCurrent: int, delta: int, growthGlobal: Five, upper: bool)
    requires UpdateTick(t, tickCurrent, delta, growthGlobal, upper).Ok?
    ensures UpdateTick(t, tickCurrent, delta, growthGlobal, upper).value.0.tick == t.tick
  {}

  lemma RewardsKeepPlace(pool: PoolState, timestamp: nat)
    requires UpdateRewardInfos(pool, timestamp).Ok?
    ensures UpdateRewardInfos(pool, timestamp).value.liquidity == pool.liquidity
  {
    PositionLemmas.InfosOnlyGrow(pool, timestamp);
  }

  /** `normal_update` */
  method NormalUpdateInPlace(before: RewardInfo, now: nat, emissions: nat, openTime: nat, endTime: nat) returns (r: Result<(RewardInfo, nat)>)
    ensures r == NormalUpdate(before, now, emissions, openTime, endTime)
  {
    hide FundingCeil, FundingFloor;
    var reward := before;
    var amount := 0;
    if reward.lastUpdateTime == reward.endTime {
      var timeDelta :- CheckedSub(endTime, openTime);
      if timeDelta < MIN_REWARD_PERIOD || timeDelta > MAX_REWARD_PERIOD {
        return Err(InvalidRewardPeriod);
      }
      amount :- FundingCeil(timeDelta, emissions);
      reward := reward.(openTime := openTime);
      reward := reward.(lastUpdateTime := openTime);
      reward := reward.(endTime := endTime);
      reward := reward.(emissionsPerSecond := emissions);
    } else {
      var left :- CheckedSub(reward.endTime, now);
      var extension :- CheckedSub(endTime, reward.endTime);
      if extension < MIN_REWARD_PERIOD || extension > MAX_REWARD_PERIOD {
        return Err(NotApproveUpdateRewardEmissiones);
      }
      if emissions < reward.emissionsPerSecond && INCREASE_EMISSIONES_PERIOD <= left {
        return Err(RequireViolated);
      }
      amount :- FundingFloor(left, SaturatingSub(emissions, reward.emissionsPerSecond));
      reward := reward.(emissionsPerSecond := emissions);
      var more :- FundingFloor(extension, reward.emissionsPerSecond);
      amount :- Narrow(amount + more, U64_LIMIT);
      reward := reward.(endTime := endTime);
    }
    return Ok((reward, amount));
  }

  /** `admin_update` */
  method AdminUpdateInPlace(before: RewardInfo, now: nat, emissions: nat, openTime: nat, endTime: nat) returns (r: Result<(RewardInfo, nat)>)
    ensures r == AdminUpdate(before, now, emissions, openTime, endTime)
  {
    hide FundingCeil, FundingFloor;
    var reward := before;
    var amount := 0;
    if reward.lastUpdateTime == reward.endTime || reward.openTime > now {
      var timeDelta :- CheckedSub(endTime, openTime);
      if timeDelta == 0 {
        return Err(InvalidRewardPeriod);
      }
      amount :- FundingCeil(timeDelta, emissions);
      reward := reward.(openTime := openTime);
      reward := reward.(lastUpdateTime := openTime);
      reward := reward.(endTime := endTime);
      reward := reward.(emissionsPerSecond := emissions);
    } else {
      var left :- CheckedSub(reward.endTime, now);
      var extension := SaturatingSub(endTime, reward.endTime);
      amount :- FundingFloor(left, SaturatingSub(emissions, reward.emissionsPerSecond));
      reward := reward.(emissionsPerSecond := emissions);
      var more :- FundingFloor(extension, reward.emissionsPerSecond);
      amount :- Narrow(amount + more, U64_LIMIT);
      reward := reward.(endTime := endTime);
    }
    return Ok((reward, amount));
  }
}
