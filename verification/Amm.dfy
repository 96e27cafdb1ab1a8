/** The program's instructions on its accounts, in the order the source performs them: the tick arrays,
    their counts and bitmaps, the pool, the positions and the vaults are fields that are written one by
    one. Every method is proved against the ledger's function for the same instruction, with `ticks`
    standing for what the tick arrays hold. An instruction that errs leaves its writes to be rolled
    back by the transaction (Transact). */
module Amm {
  import opened Wrappers
  import opened FullMath
  import opened LiquidityMath
  import opened PoolTypes
  import opened TickGrowth
  import L = Ledger
  import opened Invariants
  import opened PositionLemmas
  import opened PositionSafety
  import opened DecreaseSafety
  import opened OpenSafety
  import opened RewardAdmin
  import opened ArrayIndex
  import opened NearestArray
  import opened TickIndex
  import opened TickSearch
  import opened IndexSafety
  import opened Accounts
  import opened Machine
  import opened SwapMath
  import opened SwapPath
  import opened SwapLedger
  import opened SwapSafety
  import opened SwapOutcome
  import opened Oracle
  import opened Outcome
  import opened SwapRoute

  /** Index and ledger agree, and the ledger keeps its invariants. */
  ghost predicate StateInv(ix: Index, l: L.Ledger) {
    PoolInv(l) && IndexInv(ix, l)
  }

  function CreatedLedger(table: PriceTable, config: AmmConfig, tickSpacing: nat, sqrtPrice: nat, openTime: nat, now: nat): (l: L.Ledger)
    requires CreatePool(table, config, tickSpacing, sqrtPrice, openTime, now).Ok?
    ensures l.table == table && l.config == config && l.pool.tickSpacing == tickSpacing && l.now == now
    ensures l.ticks == map[] && l.protocols == [] && l.personals == [] && l.vaults == [0, 0] && l.rewardVaults == [0, 0, 0]
  {
    CreatePool(table, config, tickSpacing, sqrtPrice, openTime, now).value
  }

  /** What can stop an instruction that the ledger itself would execute: an array whose bit cannot be
      flipped, or swap accounts that leave out a marked array. */
  ghost predicate Obstructed(ix: Index, l: L.Ledger, op: Instruction, accounts: seq<int>, supplied: bool)
    requires StateInv(ix, l)
  {
    match op
    case Open(tickLower, tickUpper, liquidity, _, _, _) => liquidity > 0 && !CountableEnds(tickLower, tickUpper, l.pool.tickSpacing, true, supplied)
    case Increase(i, _, _, _, _) => i < |l.personals| && !CountableRange(l, l.personals[i].protocol, true, supplied)
    case Decrease(i, _, _, _) => i < |l.personals| && !CountableRange(l, l.personals[i].protocol, false, supplied)
    case Trade(_, _, _, zeroForOne, _) => !Sufficient(ix, accounts, l.pool.tickCurrent, l.pool.tickSpacing, zeroForOne, supplied)
    case _ => false
  }

  /** What the arrays refuse for certain: a mint at an end whose array's bit cannot be flipped, and a swap
      from a tick in such an array. */
  predicate Refuses(l: L.Ledger, op: Instruction)
    requires 0 < l.pool.tickSpacing
  {
    match op
    case Open(tickLower, tickUpper, liquidity, _, _, _) => liquidity > 0 && RefusesEnd(tickLower, tickUpper, l.pool.tickSpacing)
    case Increase(i, _, _, _, _) =>
      i < |l.personals| && l.personals[i].protocol < |l.protocols| &&
      var p := l.protocols[l.personals[i].protocol];
      RefusesEnd(p.tickLower, p.tickUpper, l.pool.tickSpacing)
    case Trade(_, _, _, _, _) => Refused(ArrayOf(l.pool.tickCurrent, l.pool.tickSpacing), l.pool.tickSpacing)
    case _ => false
  }

  predicate RefusesEnd(tickLower: int, tickUpper: int, spacing: nat)
    requires 0 < spacing
  {
    Refused(ArrayOf(tickLower, spacing), spacing) || Refused(ArrayOf(tickUpper, spacing), spacing)
  }

  class Amm {
    const oracle: ObservationState
    const table: PriceTable
    var config: AmmConfig
    var pool: PoolState
    var arrays: map<int, TickArray>
    var bitmap: nat
    var extension: Extension
    var protocols: seq<ProtocolPosition>
    var personals: seq<PersonalPosition>
    var vaults: Balances
    var rewardVaults: Three
    var observationIndex: nat
    var now: nat
    ghost var ticks: map<int, TickState>

    /** `create_pool` */
    constructor (table: PriceTable, config: AmmConfig, tickSpacing: nat, sqrtPrice: nat, openTime: nat, now: nat)
      requires ValidTable(table) && ConfigInv(config) && 0 < tickSpacing
      requires MIN_SQRT_PRICE <= sqrtPrice < MAX_SQRT_PRICE
      ensures CreatePool(table, config, tickSpacing, sqrtPrice, openTime, now) == Ok(St())
      ensures Valid() && Observing() && fresh(oracle) && fresh(oracle.observations)
      ensures oracle.history == [] && oracle.duration == 15 && observationIndex == 0
    {
      hide PoolInv, IndexInv;
      TickAtSqrtPriceIs(table, sqrtPrice);
      var created := CreatedLedger(table, config, tickSpacing, sqrtPrice, openTime, now);
      this.table, this.config, this.pool := table, config, created.pool;
      this.arrays, this.bitmap, this.extension := map[], 0, Extension(NoBitmaps(), NoBitmaps());
      this.protocols, this.personals, this.vaults, this.rewardVaults, this.now := [], [], [0, 0], [0, 0, 0], now;
      this.ticks := map[];
      this.observationIndex := 0;
      this.oracle := new ObservationState(OBSERVATION_UPDATE_DURATION);
      CreatedPoolInv(table, config, tickSpacing, sqrtPrice, openTime, now);
      EmptyIndexHolds(created);
    }

    /** The clock moves on. */
    method Wait(elapsed: nat)
      requires Valid()
      modifies `now
      ensures Valid() && St() == After(old(St()), elapsed)
    {
      hide PoolInv, IndexInv;
      WaitingKeepsInv(St(), elapsed);
      IndexFrame(Ix(), St(), After(St(), elapsed));
      now := now + elapsed;
    }

    function Ix(): Index
      reads this
    {
      Index(arrays, bitmap, extension)
    }

    ghost function St(): L.Ledger
      reads this
    {
      L.Ledger(table, config, pool, ticks, protocols, personals, vaults, rewardVaults, now)
    }

    ghost predicate Valid()
      reads this
    {
      StateInv(Ix(), St())
    }

    /** The pool knows the latest observation of its oracle. */
    ghost predicate Observing()
      reads `observationIndex, oracle, oracle.observations
    {
      oracle.Valid() && observationIndex < OBSERVATION_NUM && oracle.IsNewest(observationIndex)
    }

    /** The observation a swap writes is due and does not fit. */
    ghost predicate Unobservable()
      requires Observing()
      reads `now, `pool, `observationIndex, oracle, oracle.observations
    {
      oracle.Fails(now % U32_LIMIT, pool.sqrtPrice, observationIndex)
    }

    /** The method did what the ledger does, or failed where the ledger does. */
    ghost predicate Follows<T>(r: Result<T>, spec: Result<L.Ledger>)
      reads this
    {
      if r.Ok? then spec == Ok(St()) else spec.Err?
    }

    // ---------------------------------------------------------------------------------------
    // Tick arrays

    /** `get_tick_state_mut`, for reading. The arrays of a range exist from its creation on, so its
        errors cannot occur. */
    method ReadTick(tick: int) returns (state: TickState)
      requires IndexInv(Ix(), St()) && Placed(Ix(), tick, pool.tickSpacing)
      ensures state == TickOf(ticks, tick)
    {
      hide Coherent, Represents, SlotNumber, TickCount;
      var c := ArrayOf(tick, pool.tickSpacing);
      BitsOf(Ix(), pool.tickSpacing);
      TickOffsetIsSlot(arrays[c], tick, pool.tickSpacing);
      SlotOfTick(tick, pool.tickSpacing);
      SlotOfLedger(Ix(), St(), tick);
      state := arrays[c].ticks[TickOffset(arrays[c], tick, pool.tickSpacing).value];
    }

    /** Both ends of range `j` */
    method ReadEnds(j: nat) returns (lower: TickState, upper: TickState)
      requires IndexInv(Ix(), St()) && j < |protocols|
      ensures lower == TickOf(ticks, protocols[j].tickLower) && upper == TickOf(ticks, protocols[j].tickUpper)
    {
      hide Coherent, Represents, Aligned, ArrayOf;
      lower := ReadTick(protocols[j].tickLower);
      upper := ReadTick(protocols[j].tickUpper);
    }

    /** `update_tick_state` */
    method WriteTick(tick: int, state: TickState)
      requires 0 < pool.tickSpacing && WellFormed(Ix(), pool.tickSpacing) && Aligned(tick, pool.tickSpacing)
      requires ArrayOf(tick, pool.tickSpacing) in arrays
      modifies `arrays
      ensures Ix() == WithSlot(old(Ix()), tick, pool.tickSpacing, state)
    {
      hide SlotNumber, TickCount;
      var c := ArrayOf(tick, pool.tickSpacing);
      TickOffsetIsSlot(arrays[c], tick, pool.tickSpacing);
      SlotOfTick(tick, pool.tickSpacing);
      var offset := TickOffset(arrays[c], tick, pool.tickSpacing).value;
      arrays := arrays[c := arrays[c].(ticks := arrays[c].ticks[offset := state])];
    }

    /** `flip_tick_array_bit` */
    method FlipArrayBit(start: int, supplied: bool) returns (r: Result<()>)
      requires 0 < pool.tickSpacing
      modifies `bitmap, `extension
      ensures var spec := FlipArray(old(Ix()), start, pool.tickSpacing, supplied);
              if r.Ok? then spec == Ok(Ix()) else spec.Err?
    {
      hide FlipAt, Overflows, GetBitmap, OffsetInBitmap;
      var spacing := pool.tickSpacing;
      if Overflows(start, spacing) {
        if !supplied {
          return Err(MissingTickArrayBitmapExtensionAccount);
        }
        var found :- GetBitmap(extension, start, spacing);
        GetBitmapInRange(extension, start, spacing);
        var bit := OffsetInBitmap(start, spacing);
        if bit < 0 {
          return Err(Overflow);
        }
        if start < 0 {
          extension := extension.(negative := extension.negative[found.0 := FlipAt(found.1, bit)]);
        } else {
          extension := extension.(positive := extension.positive[found.0 := FlipAt(found.1, bit)]);
        }
      } else {
        if !CheckIsValidStartIndex(start, spacing) {
          return Err(InvalidTickIndex);
        }
        var bit := TruncDiv(start, TickCount(spacing)) + TICK_ARRAY_BITMAP_SIZE;
        if bit < 0 {
          return Err(Overflow);
        }
        bitmap := FlipAt(bitmap, bit);
      }
      return Ok(());
    }

    /** Count a flipped tick, and flip its array's bit when the count leaves or reaches zero. */
    method CountTick(c: int, add: bool, supplied: bool) returns (r: Result<()>)
      requires 0 < pool.tickSpacing && c in arrays
      modifies `arrays, `bitmap, `extension
      ensures var spec := CountAndFlip(old(Ix()), c, pool.tickSpacing, add, supplied);
              if r.Ok? then spec == Ok(Ix()) else spec.Err?
    {
      hide FlipArray;
      var a := arrays[c];
      if add {
        arrays := arrays[c := a.(count := a.count + 1)];
        if a.count == 0 {
          var _ :- FlipArrayBit(a.start, supplied);
        }
      } else {
        if a.count == 0 {
          return Err(Underflow);
        }
        arrays := arrays[c := a.(count := a.count - 1)];
        if arrays[c].count == 0 {
          var _ :- FlipArrayBit(a.start, supplied);
        }
      }
      return Ok(());
    }

    /** Write both ticks of a range back and count the flipped ones. */
    method StoreTicks(lower: int, upper: int, a: TickState, b: TickState, flippedLower: bool, flippedUpper: bool, add: bool, supplied: bool)
      returns (r: Result<()>)
      requires 0 < pool.tickSpacing && WellFormed(Ix(), pool.tickSpacing)
      requires Aligned(lower, pool.tickSpacing) && Aligned(upper, pool.tickSpacing)
      requires ArrayOf(lower, pool.tickSpacing) in arrays && ArrayOf(upper, pool.tickSpacing) in arrays
      modifies `arrays, `bitmap, `extension
      ensures var spec := StoreBoth(old(Ix()), lower, upper, pool.tickSpacing, a, b, flippedLower, flippedUpper, add, supplied);
              if r.Ok? then spec == Ok(Ix()) else spec.Err?
    {
      hide ArrayOf, Aligned, CountAndFlip;
      var spacing := pool.tickSpacing;
      SlotAfterWrite(Ix(), lower, spacing, a, lower);
      ghost var ix := Ix();
      WriteTick(lower, a);
      WriteTick(upper, b);
      ghost var written := Ix();
      if flippedLower {
        var _ :- CountTick(ArrayOf(lower, spacing), add, supplied);
      }
      ghost var first := Ix();
      KeysAfterFlip(flippedLower, written, ArrayOf(lower, spacing), spacing, add, supplied);
      if flippedUpper {
        var _ :- CountTick(ArrayOf(upper, spacing), add, supplied);
      }
      return Ok(());
    }

    // ---------------------------------------------------------------------------------------
    // Liquidity

    /** `modify_position` on range `j`, and the write-back of both ticks that follows it */
    method ChangeRange(j: nat, delta: int, lower: TickState, upper: TickState, supplied: bool) returns (r: Result<L.Modified>)
      requires IndexInv(Ix(), St()) && j < |protocols|
      modifies `pool, `protocols, `arrays, `bitmap, `extension, `ticks
      ensures r.Ok? ==> L.ModifyPosition(table, old(pool), old(protocols[j]), lower, upper, delta, now) == Ok(r.value)
      ensures r.Ok? ==> St() == L.StoreModified(old(St()), j, r.value)
      ensures r.Ok? ==> StoreModifiedTicks(old(Ix()), old(St()), j, r.value, delta > 0, supplied) == Ok(Ix())
      ensures r.Err? ==> var m := L.ModifyPosition(table, old(pool), old(protocols[j]), lower, upper, delta, now);
                         m.Err? || StoreModifiedTicks(old(Ix()), old(St()), j, m.value, delta > 0, supplied).Err?
    {
      hide Coherent, Represents, ArrayOf, Aligned, L.ModifyPosition, WellFormed, StoreBoth;
      ghost var l, ix := St(), Ix();
      var p, spacing := protocols[j], pool.tickSpacing;
      var m :- ModifyPositionInPlace(table, pool, p, lower, upper, delta, now);
      ModifyKeepsSpacing(table, pool, p, lower, upper, delta, now, m);
      pool := m.pool;
      protocols := protocols[j := m.protocol];
      BitsOf(ix, spacing);
      var _ :- StoreTicks(p.tickLower, p.tickUpper, m.lower, m.upper, m.flippedLower, m.flippedUpper, delta > 0, supplied);
      ticks := ticks[p.tickLower := m.lower][p.tickUpper := m.upper];
      return Ok(m);
    }

    /** The checks on a mint's amounts, and the transfers in */
    method Charge(amount0: int, amount1: int, max0: nat, max1: nat) returns (r: Result<()>)
      modifies `vaults
      ensures r.Ok? <==> (amount0 > 0 || amount1 > 0) && 0 <= amount0 <= max0 && 0 <= amount1 <= max1
      ensures r.Ok? ==> vaults == [old(vaults[0]) + amount0, old(vaults[1]) + amount1]
    {
      if !(amount0 > 0 || amount1 > 0) {
        return Err(ForbidBothZeroForSupplyLiquidity);
      }
      if amount0 < 0 || amount1 < 0 {
        return Err(Overflow);
      }
      if !(max0 >= amount0 && max1 >= amount1) {
        return Err(PriceSlippageCheck);
      }
      vaults := [vaults[0] + amount0, vaults[1] + amount1];
      return Ok(());
    }

    /** `add_liquidity` */
    method AddLiquidity(j: nat, liquidity: nat, max0: nat, max1: nat, baseFlag: Option<bool>, supplied: bool) returns (r: Result<()>)
      requires Valid() && j < |protocols|
      modifies `pool, `protocols, `arrays, `bitmap, `extension, `ticks, `vaults
      ensures r.Ok? ==> L.AddLiquidity(old(St()), j, liquidity, max0, max1, baseFlag, now) == Ok(St())
      ensures r.Err? ==> L.AddLiquidity(old(St()), j, liquidity, max0, max1, baseFlag, now).Err? || !old(CountableRange(St(), j, true, supplied))
      ensures r.Ok? ==> Valid() && |protocols| == old(|protocols|)
    {
      hide PoolInv, IndexInv, L.ModifyPosition, L.RequestedLiquidity, StoreModifiedTicks, CountableRange, L.AddLiquidity;
      ghost var l, ix := St(), Ix();
      var p := protocols[j];
      NothingToMint(l, j, liquidity, max0, max1, baseFlag);
      var delta :- L.RequestedLiquidity(table, pool.sqrtPrice, p, liquidity, max0, max1, baseFlag);
      if delta == 0 {
        return Err(AssertionFailed);
      }
      if delta >= I128_LIMIT {
        return Err(Overflow);
      }
      var lower, upper := ReadEnds(j);
      if lower.tick == 0 {
        lower := lower.(tick := p.tickLower);
      }
      if upper.tick == 0 {
        upper := upper.(tick := p.tickUpper);
      }
      MintOf(l, j, liquidity, max0, max1, baseFlag, delta);
      MintIsStored(ix, l, j, delta, supplied);
      var m :- ChangeRange(j, delta, lower, upper, supplied);
      MintedIsValid(ix, l, j, delta, m, supplied, Ix());
      r := Charge(m.amount0, m.amount1, max0, max1);
    }

    /** `increase_liquidity` */
    method IncreaseLiquidity(i: nat, liquidity: nat, max0: nat, max1: nat, baseFlag: Option<bool>, supplied: bool) returns (r: Result<()>)
      requires Valid() && i < |personals| && personals[i].protocol < |protocols|
      modifies `pool, `protocols, `arrays, `bitmap, `extension, `ticks, `vaults, `personals
      ensures r.Ok? ==> L.IncreaseLiquidity(old(St()), i, liquidity, max0, max1, baseFlag) == Ok(St())
      ensures r.Err? ==> L.IncreaseLiquidity(old(St()), i, liquidity, max0, max1, baseFlag).Err? ||
                         !old(CountableRange(St(), personals[i].protocol, true, supplied))
      ensures r.Ok? ==> Valid()
    {
      hide PoolInv, IndexInv, L.AddLiquidity, L.Credit;
      ghost var l := St();
      if IncreaseOp in pool.disabled {
        return Err(NotApproved);
      }
      var j := personals[i].protocol;
      var _ :- AddLiquidity(j, liquidity, max0, max1, baseFlag, supplied);
      ghost var added := St();
      var p :- CreditInPlace(personals[i], protocols[j].growthInside);
      var total :- Narrow(p.liquidity + liquidity, U128_LIMIT);
      p := p.(liquidity := total);
      personals := personals[i := p];
      IncreasedIsValid(Ix(), l, added, i, liquidity, max0, max1, baseFlag, St());
      return Ok(());
    }

    /** `burn_liquidity`; also returns the two amounts. */
    method BurnLiquidity(j: nat, liquidity: nat, supplied: bool) returns (r: Result<(nat, nat)>)
      requires Valid() && j < |protocols|
      modifies `pool, `protocols, `arrays, `bitmap, `extension, `ticks
      ensures r.Ok? ==> L.BurnLiquidity(old(St()), j, liquidity) == Ok((St(), r.value.0, r.value.1))
      ensures r.Err? ==> L.BurnLiquidity(old(St()), j, liquidity).Err? || !old(CountableRange(St(), j, false, supplied))
      ensures r.Ok? ==> IndexInv(Ix(), St()) && |protocols| == old(|protocols|)
    {
      hide PoolInv, IndexInv, L.ModifyPosition, StoreModifiedTicks, CountableRange;
      ghost var l, ix := St(), Ix();
      var p := protocols[j];
      var lower, upper := ReadEnds(j);
      var magnitude :- Narrow(liquidity, I128_LIMIT);
      var change: int := -(magnitude as int);
      BurnIsStored(ix, l, j, liquidity, supplied);
      var m :- ChangeRange(j, change, lower, upper, supplied);
      if !(m.amount0 <= 0 && m.amount1 <= 0) {
        return Err(Overflow);
      }
      BurntKeepsIndex(ix, l, j, liquidity, m, supplied, Ix());
      return Ok((-m.amount0, -m.amount1));
    }

    /** First half of `decrease_liquidity_and_update_position` */
    method BurnAndCredit(i: nat, liquidity: nat, supplied: bool) returns (r: Result<(nat, nat)>)
      requires Valid() && i < |personals| && personals[i].protocol < |protocols|
      modifies `pool, `protocols, `arrays, `bitmap, `extension, `ticks, `personals
      ensures r.Ok? ==> L.BurnAndCredit(old(St()), i, liquidity) == Ok((St(), r.value.0, r.value.1))
      ensures r.Err? ==> L.BurnAndCredit(old(St()), i, liquidity).Err? || !old(CountableRange(St(), personals[i].protocol, false, supplied))
      ensures r.Ok? ==> IndexInv(Ix(), St()) && |personals| == old(|personals|)
    {
      hide PoolInv, IndexInv, L.BurnLiquidity, L.Credit;
      if DecreaseOp in pool.disabled {
        return Ok((0, 0));
      }
      var j := personals[i].protocol;
      var amounts :- BurnLiquidity(j, liquidity, supplied);
      ghost var burnt := St();
      var p :- CreditInPlace(personals[i], protocols[j].growthInside);
      var rest :- CheckedSub(p.liquidity, liquidity);
      p := p.(liquidity := rest);
      personals := personals[i := p];
      IndexFrame(Ix(), burnt, St());
      return Ok(amounts);
    }

    /** Second half: the owed fees, checked against what the pool has taken and not yet paid */
    method CollectFees(i: nat) returns (r: Result<(nat, nat)>)
      requires i < |personals|
      modifies `pool, `personals
      ensures r.Ok? ==> L.CollectFees(old(St()), i) == Ok((St(), r.value.0, r.value.1))
      ensures r.Err? ==> L.CollectFees(old(St()), i).Err?
      ensures r.Ok? ==> pool.tickSpacing == old(pool.tickSpacing) && |personals| == old(|personals|)
    {
      if CollectFeeOp in pool.disabled {
        return Ok((0, 0));
      }
      var fee0, fee1 := personals[i].owed[0], personals[i].owed[1];
      var unclaimed0 :- CheckedSub(pool.total[0], pool.claimed[0]);
      var unclaimed1 :- CheckedSub(pool.total[1], pool.claimed[1]);
      if unclaimed0 < fee0 || unclaimed1 < fee1 {
        return Err(RequireViolated);
      }
      personals := personals[i := personals[i].(owed := personals[i].owed[0 := 0])];
      personals := personals[i := personals[i].(owed := personals[i].owed[1 := 0])];
      var claimed0 :- Narrow(pool.claimed[0] + fee0, U64_LIMIT);
      pool := pool.(claimed := pool.claimed[0 := claimed0]);
      var claimed1 :- Narrow(pool.claimed[1] + fee1, U64_LIMIT);
      pool := pool.(claimed := pool.claimed[1 := claimed1]);
      return Ok((fee0, fee1));
    }

    /** `check_unclaimed_fees_and_vault` */
    method CheckUnclaimedFees() returns (r: Result<()>)
      modifies `pool
      ensures Follows(r, L.CheckUnclaimedFees(old(St())))
      ensures pool.tickSpacing == old(pool.tickSpacing)
    {
      var unclaimed0 :- CheckedSub(pool.total[0], pool.claimed[0]);
      var unclaimed1 :- CheckedSub(pool.total[1], pool.claimed[1]);
      if (unclaimed0 >= vaults[0] && vaults[0] != 0) || (unclaimed1 >= vaults[1] && vaults[1] != 0) {
        pool := pool.(disabled := pool.disabled + {CollectFeeOp});
      }
      return Ok(());
    }

    /** One reward of `collect_rewards` */
    method CollectReward(i: nat, k: nat) returns (r: Result<()>)
      requires i < |personals| && k < REWARD_NUM
      modifies `pool, `personals, `rewardVaults
      ensures Follows(r, L.CollectReward(old(St()), i, k))
      ensures r.Ok? ==> St() == old(St()).(pool := pool, personals := personals, rewardVaults := rewardVaults)
      ensures r.Ok? ==> |personals| == old(|personals|) && pool.tickSpacing == old(pool.tickSpacing)
    {
      var owed := personals[i].owed[2 + k];
      if owed == 0 {
        return Ok(());
      }
      var unclaimed :- CheckedSub(pool.total[2 + k], pool.claimed[2 + k]);
      if unclaimed < owed {
        return Err(RequireViolated);
      }
      var amount := if owed > rewardVaults[k] then rewardVaults[k] else owed;
      personals := personals[i := personals[i].(owed := personals[i].owed[2 + k := owed - amount])];
      var claimed :- Narrow(pool.claimed[2 + k] + amount, U64_LIMIT);
      pool := pool.(claimed := pool.claimed[2 + k := claimed]);
      rewardVaults := rewardVaults[k := rewardVaults[k] - amount];
      return Ok(());
    }

    /** `collect_rewards`, with its loop over the reward accounts */
    method CollectRewards(i: nat) returns (r: Result<()>)
      requires i < |personals|
      modifies `pool, `personals, `rewardVaults
      ensures Follows(r, L.CollectRewardsFrom(old(St()), i, 0))
      ensures r.Ok? ==> pool.tickSpacing == old(pool.tickSpacing)
    {
      hide L.CollectReward;
      var k := 0;
      while k < REWARD_NUM && pool.rewards[k].initialized
        invariant k <= REWARD_NUM && i < |personals| && pool.tickSpacing == old(pool.tickSpacing)
        invariant L.CollectRewardsFrom(St(), i, k) == L.CollectRewardsFrom(old(St()), i, 0)
        invariant St() == old(St()).(pool := pool, personals := personals, rewardVaults := rewardVaults)
      {
        var _ :- CollectReward(i, k);
        k := k + 1;
      }
      return Ok(());
    }

    /** A transfer out of both vaults */
    method PayOut(amount0: nat, amount1: nat) returns (r: Result<()>)
      modifies `vaults
      ensures Follows(r, L.PayOut(old(St()), amount0, amount1))
    {
      if !(amount0 <= vaults[0] && amount1 <= vaults[1]) {
        return Err(InsufficientFunds);
      }
      vaults := [vaults[0] - amount0, vaults[1] - amount1];
      return Ok(());
    }

    /** `decrease_liquidity` */
    method DecreaseLiquidity(i: nat, liquidity: nat, min0: nat, min1: nat, supplied: bool) returns (r: Result<()>)
      requires Valid() && i < |personals| && personals[i].protocol < |protocols|
      modifies `pool, `protocols, `arrays, `bitmap, `extension, `ticks, `personals, `vaults, `rewardVaults
      ensures r.Ok? ==> L.DecreaseLiquidity(old(St()), i, liquidity, min0, min1) == Ok(St())
      ensures r.Ok? ==> Decreases(old(St()), i, liquidity, min0, min1, St())
      ensures r.Err? ==> L.DecreaseLiquidity(old(St()), i, liquidity, min0, min1).Err? ||
                         !old(CountableRange(St(), personals[i].protocol, false, supplied))
      ensures r.Ok? ==> Valid()
    {
      hide PoolInv, IndexInv, L.BurnAndCredit, L.CollectFees, L.CheckUnclaimedFees, L.CollectRewardsFrom, L.PayOut, Decreases;
      ghost var l := St();
      if liquidity > personals[i].liquidity {
        return Err(AssertionFailed);
      }
      if {DecreaseOp, CollectFeeOp, CollectRewardOp} <= pool.disabled {
        return Err(NotApproved);
      }
      var amounts :- BurnAndCredit(i, liquidity, supplied);
      ghost var burnt := St();
      var fees :- CollectFees(i);
      if liquidity > 0 && !(amounts.0 >= min0 && amounts.1 >= min1) {
        return Err(PriceSlippageCheck);
      }
      var out0 :- Narrow(amounts.0 + fees.0, U64_LIMIT);
      var out1 :- Narrow(amounts.1 + fees.1, U64_LIMIT);
      var _ :- PayOut(out0, out1);
      var _ :- CheckUnclaimedFees();
      if CollectRewardOp !in pool.disabled {
        var _ :- CollectRewards(i);
      }
      DecreasedIsValid(Ix(), l, burnt, i, liquidity, min0, min1, St());
      DecreasesSafely(l, i, liquidity, min0, min1, St());
      return Ok(());
    }

    // ---------------------------------------------------------------------------------------
    // Opening

    /** `get_or_create_tick_array` */
    method GetOrCreateArray(tick: int)
      requires Valid() && MIN_TICK <= tick <= MAX_TICK
      modifies `arrays
      ensures Valid() && ArrayOf(tick, pool.tickSpacing) in arrays
      ensures forall c :: c in old(arrays) ==> c in arrays
    {
      hide PoolInv, Coherent, Represents, ArrayOf;
      var c := ArrayOf(tick, pool.tickSpacing);
      ArrayInRange(tick, pool.tickSpacing);
      WithArrayKeepsIndex(Ix(), St(), c);
      if c !in arrays {
        arrays := arrays[c := NewArray(c, pool.tickSpacing)];
      }
    }

    /** Look the protocol position of a range up, or create it and name its two slots. */
    method FindOrCreateRange(tickLower: int, tickUpper: int) returns (j: nat)
      requires Valid() && MIN_TICK <= tickLower < tickUpper <= MAX_TICK
      requires Aligned(tickLower, pool.tickSpacing) && Aligned(tickUpper, pool.tickSpacing)
      requires ArrayOf(tickLower, pool.tickSpacing) in arrays && ArrayOf(tickUpper, pool.tickSpacing) in arrays
      modifies `protocols, `arrays, `ticks
      ensures L.FindOrCreate(old(St()), tickLower, tickUpper) == (St(), j) && j < |protocols|
      ensures Valid()
    {
      hide PoolInv, Coherent, Represents, ArrayOf, Aligned, L.RangeIndex, WithSlot;
      ghost var l, ix, spacing := St(), Ix(), pool.tickSpacing;
      j := L.RangeIndex(protocols, tickLower, tickUpper, |protocols|);
      if j == |protocols| {
        protocols := protocols + [ProtocolPosition(tickLower, tickUpper, 0, ZERO_FIVE, [0, 0])];
        NameSlot(tickLower);
        NameSlot(tickUpper);
        RangeIsPlaced(ix, Ix(), l.protocols, protocols, spacing);
        CreatedIsValid(l, tickLower, tickUpper);
      }
    }

    /** `get_tick_state_mut(tick)?.tick = tick` */
    method NameSlot(tick: int)
      requires 0 < pool.tickSpacing && Coherent(Ix(), pool.tickSpacing) && Represents(Ix(), pool.tickSpacing, ticks)
      requires Aligned(tick, pool.tickSpacing) && ArrayOf(tick, pool.tickSpacing) in arrays
      modifies `arrays, `ticks
      ensures ticks == old(ticks)[tick := TickOf(old(ticks), tick).(tick := tick)]
      ensures Coherent(Ix(), pool.tickSpacing) && Represents(Ix(), pool.tickSpacing, ticks)
      ensures arrays.Keys == old(arrays).Keys
    {
      hide TickCount, Coherent, Represents, WellFormed;
      ghost var ix, spacing := Ix(), pool.tickSpacing;
      var c := ArrayOf(tick, pool.tickSpacing);
      BitsOf(ix, spacing);
      SlotsRepresented(ix, spacing, ticks, tick);
      ArrayHasShape(ix, spacing, c);
      TickOffsetIsSlot(arrays[c], tick, pool.tickSpacing);
      SlotOfTick(tick, pool.tickSpacing);
      var state := arrays[c].ticks[TickOffset(arrays[c], tick, pool.tickSpacing).value].(tick := tick);
      WriteTick(tick, state);
      ticks := ticks[tick := state];
      RenamedKeepsIndex(ix, spacing, old(ticks), tick);
      SlotKeys(ix, tick, spacing, state);
    }

    /** `open_position` */
    method OpenPosition(tickLower: int, tickUpper: int, liquidity: nat, max0: nat, max1: nat, baseFlag: Option<bool>, supplied: bool)
      returns (r: Result<()>)
      requires Valid()
      modifies `pool, `protocols, `arrays, `bitmap, `extension, `ticks, `vaults, `personals
      ensures r.Ok? ==> L.OpenPosition(old(St()), tickLower, tickUpper, liquidity, max0, max1, baseFlag) == Ok(St())
      ensures r.Err? ==> L.OpenPosition(old(St()), tickLower, tickUpper, liquidity, max0, max1, baseFlag).Err? ||
                         (liquidity > 0 && !old(CountableEnds(tickLower, tickUpper, pool.tickSpacing, true, supplied)))
      ensures r.Ok? ==> Valid()
    {
      hide PoolInv, IndexInv, L.AddLiquidity, L.FindOrCreate, ArrayOf;
      ghost var l := St();
      if IncreaseOp in pool.disabled {
        return Err(NotApproved);
      }
      if tickLower >= tickUpper {
        return Err(TickInvalidOrder);
      }
      var _ :- L.CheckTick(tickLower, pool.tickSpacing);
      var _ :- L.CheckTick(tickUpper, pool.tickSpacing);
      GetOrCreateArray(tickLower);
      GetOrCreateArray(tickUpper);
      var j := FindOrCreateRange(tickLower, tickUpper);
      ghost var found := St();
      RangeFound(l, tickLower, tickUpper, supplied);
      if liquidity > 0 {
        var _ :- AddLiquidity(j, liquidity, max0, max1, baseFlag, supplied);
      }
      ghost var added := St();
      personals := personals + [PersonalPosition(j, liquidity, protocols[j].growthInside, ZERO_FIVE)];
      OpenedIsValid(Ix(), l, added, tickLower, tickUpper, liquidity, max0, max1, baseFlag, St());
      return Ok(());
    }

    // ---------------------------------------------------------------------------------------
    // Swapping

    /** What one turn of the loop does once the next tick is found: the step, the split of its fee, and
        the crossing. */
    method TakeTurn(s: Setting, path: Path, taken: Takings, found: TickState) returns (r: Result<(Path, Takings)>)
      requires Holds(Ix(), pool.tickSpacing, ticks) && s.table == table && s.feeRate == config.tradeFeeRate
      requires NextTick(ticks, path.tick, s.zeroForOne) == Some(found.tick) && found == TickOf(ticks, found.tick) && found.IsInitialized()
      modifies `arrays, `ticks
      ensures r.Ok? ==> SwapOnce(s, config, pool, SwapState(path, taken, old(ticks))) == Ok(SwapState(r.value.0, r.value.1, ticks))
      ensures r.Err? ==> SwapOnce(s, config, pool, SwapState(path, taken, old(ticks))).Err?
      ensures r.Ok? ==> Holds(Ix(), pool.tickSpacing, ticks) && arrays.Keys == old(arrays).Keys
      ensures r.Ok? ==> forall c :: Marked(Ix(), c) <==> Marked(old(Ix()), c)
    {
      hide Holds, StepOf, NextTick, CrossTick, FloorDiv, MulDivFloor, TickAtSqrtPrice, AddDelta, ArrayOf, Aligned;
      var next := found.tick;
      var priceNext :- PriceAt(table, if next < MIN_TICK then MIN_TICK else if next > MAX_TICK then MAX_TICK else next);
      var target := Target(s, priceNext);
      if s.zeroForOne && !(path.tick >= next && path.sqrtPrice >= priceNext && path.sqrtPrice >= target) {
        return Err(RequireViolated);
      }
      if !s.zeroForOne && !(next > path.tick && priceNext >= path.sqrtPrice && target >= path.sqrtPrice) {
        return Err(RequireViolated);
      }
      HeldInRange(Ix(), pool.tickSpacing, ticks, next);
      var step :- ComputeSwapStep(path.sqrtPrice, target, path.liquidity, path.remaining, s.feeRate, s.baseInput, s.zeroForOne);
      ghost var hop := Hop(next, priceNext, target, step, step.sqrtPriceNext == priceNext);
      assert HopFrom(s, ticks, path) == Ok(hop) && InOrder(s, path, hop);
      var input :- Narrow(step.amountIn + step.feeAmount, U64_LIMIT);
      var remaining, calculated := path.remaining, path.calculated;
      if s.baseInput {
        remaining :- CheckedSub(remaining, input);
        calculated :- Narrow(calculated + step.amountOut, U64_LIMIT);
      } else {
        remaining :- CheckedSub(remaining, step.amountOut);
        calculated :- Narrow(calculated + input, U64_LIMIT);
      }
      var taken' :- SplitFee(taken, path.liquidity, step.feeAmount);
      var liquidity, tick := path.liquidity, path.tick;
      if step.sqrtPriceNext == priceNext {
        var crossed :- CrossTickInPlace(found, pool.growthGlobal[InToken(s.zeroForOne) := taken'.growth], pool.rewards);
        CrossedOnlyGrowth(found, pool.growthGlobal[InToken(s.zeroForOne) := taken'.growth], pool.rewards);
        InitializedIsAligned(Ix(), pool.tickSpacing, ticks, next);
        CrossedKeepsHolds(Ix(), pool.tickSpacing, ticks, next, crossed);
        WriteTick(next, crossed);
        ticks := ticks[next := crossed];
        liquidity :- CrossedLiquidity(liquidity, found.liquidityNet, s.zeroForOne);
        tick := if s.zeroForOne then next - 1 else next;
      } else if step.sqrtPriceNext != path.sqrtPrice {
        tick :- TickAtSqrtPrice(table, step.sqrtPriceNext);
      }
      assert Advance(s, old(ticks), path, hop) == Ok(Path(remaining, calculated, step.sqrtPriceNext, tick, liquidity));
      return Ok((Path(remaining, calculated, step.sqrtPriceNext, tick, liquidity), taken'));
    }

    /** Protocol and fund shares first, the rest to the liquidity in range */
    method SplitFee(taken: Takings, liquidity: nat, fee: nat) returns (r: Result<Takings>)
      ensures r == Take(config, taken, liquidity, fee)
    {
      hide FloorDiv, MulDivFloor;
      var t, rest := taken, fee;
      if config.protocolFeeRate > 0 {
        var delta := FloorDiv(fee * config.protocolFeeRate, FEE_RATE_DENOMINATOR);
        rest :- CheckedSub(rest, delta);
        var protocolFee :- Narrow(t.protocolFee + delta, U64_LIMIT);
        t := t.(protocolFee := protocolFee);
      }
      if config.fundFeeRate > 0 {
        var delta := FloorDiv(fee * config.fundFeeRate, FEE_RATE_DENOMINATOR);
        rest :- CheckedSub(rest, delta);
        var fundFee :- Narrow(t.fundFee + delta, U64_LIMIT);
        t := t.(fundFee := fundFee);
      }
      if liquidity > 0 {
        var delta :- MulDivFloor128(rest, Q64, liquidity);
        var growth :- Narrow(t.growth + delta, U128_LIMIT);
        t := t.(growth := growth);
        var lpFee :- Narrow(t.lpFee + rest, U64_LIMIT);
        t := t.(lpFee := lpFee);
      }
      return Ok(t);
    }

    /** The accounts a swap was given, popped until the first array, the `k`th, turns up. */
    method TakeFirstArray(accounts: seq<int>, start: int) returns (r: Result<(int, seq<int>)>, ghost k: nat)
      ensures r.Ok? ==> r.value.0 in arrays && arrays[r.value.0].start == start
      ensures r.Ok? ==> k < |accounts| && r.value == (accounts[k], accounts[k + 1..])
      ensures r.Err? && (forall d :: d in accounts ==> d in arrays) ==> forall d :: d in accounts ==> arrays[d].start != start
    {
      k := 0;
      if accounts == [] {
        return Err(AssertionFailed), k;
      }
      var c, rest := accounts[0], accounts[1..];
      if c !in arrays {
        return Err(InvalidTickArray), k;
      }
      while rest != [] && arrays[c].start != start
        invariant k < |accounts| && c == accounts[k] && rest == accounts[k + 1..]
        invariant forall i :: 0 <= i <= k ==> accounts[i] in arrays && (i < k ==> arrays[accounts[i]].start != start)
        decreases |rest|
      {
        c, rest, k := rest[0], rest[1..], k + 1;
        if c !in arrays {
          return Err(InvalidTickArray), k;
        }
      }
      if arrays[c].start != start {
        return Err(InvalidFirstTickArrayAccount), k;
      }
      return Ok((c, rest)), k;
    }

    /** The loop of `swap_internal`, on the arrays passed to it. The rewards are already up to date. */
    method SwapLoopInPlace(s: Setting, amount: nat, accounts: seq<int>, supplied: bool) returns (r: Result<(Path, Takings)>)
      requires ValidSetting(s) && s.table == table && s.feeRate == config.tradeFeeRate && ConfigInv(config)
      requires OnPath(s, Start(pool, ticks, amount, s.zeroForOne).path) && Inv(St()) && IndexInv(Ix(), St())
      modifies `arrays, `ticks
      requires amount != 0 && pool.sqrtPrice != s.limit
      ensures r.Ok? ==> SwapLoop(s, config, pool, Start(pool, old(ticks), amount, s.zeroForOne)) == Ok(SwapState(r.value.0, r.value.1, ticks))
      ensures r.Err? ==> SwapLoop(s, config, pool, Start(pool, old(ticks), amount, s.zeroForOne)).Err? ||
                         !Sufficient(old(Ix()), accounts, pool.tickCurrent, pool.tickSpacing, s.zeroForOne, supplied)
      ensures r.Ok? ==> Holds(Ix(), pool.tickSpacing, ticks) && arrays.Keys == old(arrays).Keys
      ensures r.Ok? ==> !Refused(ArrayOf(pool.tickCurrent, pool.tickSpacing), pool.tickSpacing)
    {
      hide Holds, IndexInv, OnPath, ValidSetting, Inv, TradeInv, Midway, SwapOnce, Searching, FirstInitializedArray, Distance, NextTick,
        Sufficient, Complete;
      ghost var l := St();
      var spacing := pool.tickSpacing;
      StartsInOrder(s, Ix(), l, amount);
      ghost var sufficient := Sufficient(Ix(), accounts, pool.tickCurrent, spacing, s.zeroForOne, supplied);
      if sufficient && FirstInitializedArray(Ix(), pool.tickCurrent, spacing, s.zeroForOne, supplied).Err? {
        SufficientFindsArray(s, config, Ix(), l, accounts, amount, supplied);
      }
      NotRefused(Ix(), spacing, ticks, pool.tickCurrent, s.zeroForOne, supplied);
      var first :- FirstInitializedArray(Ix(), pool.tickCurrent, spacing, s.zeroForOne, supplied);
      var taking, k := TakeFirstArray(accounts, first.1);
      FirstTakenIs(Ix(), l, accounts, taking, k, s.zeroForOne, supplied);
      var taken0 :- taking;
      var c, rest := taken0.0, taken0.1;
      var entered := first.0;
      StartsInFirstArray(Ix(), spacing, ticks, pool.tickCurrent, s.zeroForOne, supplied, c);
      var path := Path(amount, 0, pool.sqrtPrice, pool.tickCurrent, pool.liquidity);
      var taken := Takings(pool.growthGlobal[InToken(s.zeroForOne)], 0, 0, 0);
      ghost var start := Start(pool, ticks, amount, s.zeroForOne);
      assert start == SwapState(path, taken, ticks);
      while path.remaining != 0 && path.sqrtPrice != s.limit
        invariant Holds(Ix(), spacing, ticks) && OnPath(s, path) && 0 < spacing
        invariant TradeInv(Midway(s, l, amount, SwapState(path, taken, ticks)))
        invariant SwapLoop(s, config, pool, SwapState(path, taken, ticks)) == SwapLoop(s, config, pool, start)
        invariant !Done(s, path) ==> Searching(Ix(), spacing, ticks, path.tick, c, entered, s.zeroForOne)
        invariant arrays.Keys == old(arrays).Keys && (sufficient ==> Complete(Ix(), rest, c, s.zeroForOne, supplied))
        decreases Distance(s, path)
      {
        ghost var before, ix := SwapState(path, taken, ticks), Ix();
        NoTickNoTurn(s, config, pool, before);
        var found :- FindNextTick(Ix(), spacing, ticks, path.tick, s.zeroForOne, supplied, c, entered, rest);
        c, entered, rest := found.at, true, found.rest;
        var turn :- TakeTurn(s, path, taken, found.next);
        path, taken := turn.0, turn.1;
        ghost var after := SwapState(path, taken, ticks);
        if sufficient { CompleteKept(ix, Ix(), rest, c, s.zeroForOne, supplied); }
        SwapOnceProgresses(s, config, pool, before, after);
        TurnKeepsTradeInv(s, l, amount, before, after);
        if !Done(s, path) {
          StillSearching(s, config, pool, Ix(), spacing, before, after, found.next.tick);
        }
      }
      return Ok((path, taken));
    }

    /** The write-back of `swap_internal` */
    method WriteBack(s: Setting, path: Path, taken: Takings) returns (r: Result<()>)
      modifies `pool
      ensures var after, c := WrittenBack(s, old(pool), SwapState(path, taken, ticks)), InToken(s.zeroForOne);
              (r.Ok? <==> after.total[c] < U64_LIMIT && after.protocolFees[c] < U64_LIMIT && after.fundFees[c] < U64_LIMIT) &&
              (r.Ok? ==> pool == after)
      ensures pool.tickSpacing == old(pool.tickSpacing)
    {
      var c := InToken(s.zeroForOne);
      pool := pool.(tickCurrent := path.tick, sqrtPrice := path.sqrtPrice, liquidity := path.liquidity);
      pool := pool.(growthGlobal := pool.growthGlobal[c := taken.growth]);
      var total :- Narrow(pool.total[c] + taken.lpFee, U64_LIMIT);
      pool := pool.(total := pool.total[c := total]);
      var protocolFees :- Narrow(pool.protocolFees[c] + taken.protocolFee, U64_LIMIT);
      pool := pool.(protocolFees := pool.protocolFees[c := protocolFees]);
      var fundFees :- Narrow(pool.fundFees[c] + taken.fundFee, U64_LIMIT);
      pool := pool.(fundFees := pool.fundFees[c := fundFees]);
      return Ok(());
    }

    /** The write-back, and the checks and transfers of `exact_internal` */
    method SettleSwap(s: Setting, amount: nat, path: Path, taken: Takings, threshold: nat) returns (r: Result<()>)
      modifies `pool, `vaults
      ensures Follows(r, Settle(s, old(St()), amount, SwapState(path, taken, ticks), threshold))
      ensures r.Ok? ==> Settles(old(St()), St(), if s.zeroForOne then 0 else 1, amount, path, taken, s.baseInput, threshold)
      ensures pool.tickSpacing == old(pool.tickSpacing)
    {
      hide WrittenBack, Settles;
      ghost var l := St();
      var c, priceBefore := InToken(s.zeroForOne), pool.sqrtPrice;
      PriceWrittenBack(s, pool, SwapState(path, taken, ticks));
      var used :- CheckedSub(amount, path.remaining);
      var input, output := if s.baseInput then used else path.calculated, if s.baseInput then path.calculated else used;
      var _ :- WriteBack(s, path, taken);
      if input == 0 || output == 0 {
        return Err(TooSmallInputOrOutputAmount);
      }
      if vaults[1 - c] <= output {
        pool := pool.(disabled := ALL_OPERATIONS);
      }
      if output > vaults[1 - c] {
        return Err(InsufficientFunds);
      }
      vaults := vaults[c := vaults[c] + input][1 - c := vaults[1 - c] - output];
      if if s.zeroForOne then priceBefore <= pool.sqrtPrice else pool.sqrtPrice <= priceBefore {
        return Err(RequireViolated);
      }
      if s.baseInput && output < threshold {
        return Err(TooLittleOutputReceived);
      }
      if !s.baseInput && input > threshold {
        return Err(TooMuchInputPaid);
      }
      SettledIs(s, l, amount, SwapState(path, taken, ticks), threshold, St());
      return Ok(());
    }

    /** The observation of the price before the swap */
    method Observe(sqrtPrice: nat) returns (r: Result<()>)
      requires Observing() && sqrtPrice < U128_LIMIT
      modifies `observationIndex, oracle, oracle.observations
      ensures Observing() && oracle.observations == old(oracle.observations)
      ensures r.Ok? ==> Observed(old(oracle.history), old(observationIndex), oracle.history, observationIndex, oracle.duration,
                                 now % 0x1_0000_0000, sqrtPrice)
      ensures r.Err? <==> old(oracle.Fails(now % U32_LIMIT, sqrtPrice, observationIndex))
    {
      var next :- oracle.UpdateCheck(now % U32_LIMIT, sqrtPrice, observationIndex);
      if next.Some? {
        observationIndex := next.value;
      }
      return Ok(());
    }

    /** The loop of `swap_internal`, and the observation that follows it. */
    method WalkAndObserve(s: Setting, amount: nat, accounts: seq<int>, supplied: bool) returns (r: Result<(Path, Takings)>)
      requires ValidSetting(s) && s.table == table && s.feeRate == config.tradeFeeRate && ConfigInv(config)
      requires OnPath(s, Start(pool, ticks, amount, s.zeroForOne).path) && Inv(St()) && IndexInv(Ix(), St())
      requires amount != 0 && pool.sqrtPrice != s.limit && Observing() && pool.sqrtPrice < U128_LIMIT
      modifies `arrays, `ticks, `observationIndex, oracle, oracle.observations
      ensures r.Ok? ==> SwapLoop(s, config, pool, Start(pool, old(ticks), amount, s.zeroForOne)) == Ok(SwapState(r.value.0, r.value.1, ticks))
      ensures r.Err? ==> SwapLoop(s, config, pool, Start(pool, old(ticks), amount, s.zeroForOne)).Err? || old(Unobservable()) ||
                         !Sufficient(old(Ix()), accounts, pool.tickCurrent, pool.tickSpacing, s.zeroForOne, supplied)
      ensures r.Ok? ==> Holds(Ix(), pool.tickSpacing, ticks) && arrays.Keys == old(arrays).Keys && !old(Unobservable())
      ensures r.Ok? ==> !Refused(ArrayOf(pool.tickCurrent, pool.tickSpacing), pool.tickSpacing)
      ensures Observing() && oracle.observations == old(oracle.observations)
      ensures r.Ok? ==> Observed(old(oracle.history), old(observationIndex), oracle.history, observationIndex, oracle.duration,
                                 now % 0x1_0000_0000, pool.sqrtPrice)
    {
      hide Sufficient, Inv, IndexInv, ConfigInv, SwapLoop, OnPath, ValidSetting, Holds, Start, Observing, Observed, Refused, ArrayOf,
        ObservationState.Fails;
      var turned :- SwapLoopInPlace(s, amount, accounts, supplied);
      var _ :- Observe(pool.sqrtPrice);
      return Ok(turned);
    }

    /** `swap` */
    method Trade(accounts: seq<int>, amount: nat, threshold: nat, limit: nat, zeroForOne: bool, baseInput: bool, supplied: bool)
      returns (r: Result<()>)
      requires Valid() && Observing()
      modifies `pool, `vaults, `arrays, `ticks, `observationIndex, oracle, oracle.observations
      ensures old(PriceInv(St()) && ConfigInv(St().config))
      ensures r.Ok? ==> Swap(old(St()), amount, threshold, limit, zeroForOne, baseInput) == Ok(St())
      ensures r.Err? ==> Swap(old(St()), amount, threshold, limit, zeroForOne, baseInput).Err? ||
                         !old(Sufficient(Ix(), accounts, pool.tickCurrent, pool.tickSpacing, zeroForOne, supplied)) || old(Unobservable())
      ensures r.Ok? ==> Valid() && !old(Unobservable()) && !old(Refused(ArrayOf(pool.tickCurrent, pool.tickSpacing), pool.tickSpacing))
      ensures Observing() && oracle.observations == old(oracle.observations)
      ensures r.Ok? ==> Observed(old(oracle.history), old(observationIndex), oracle.history, observationIndex, oracle.duration,
                                 now % 0x1_0000_0000, old(pool.sqrtPrice))
    {
      hide Sufficient, Inv, TimesInv, IndexInv, PriceInv, ConfigInv, L.UpdateRewardInfos, SwapLoop, Settle, OnPath, ValidSetting, Holds, Start,
        Observing, Observed, Refused, ArrayOf, ObservationState.Fails, Settles;
      ghost var l, ix := St(), Ix();
      TradesInOrder(ix, l);
      PriceFits(l);
      if now <= pool.openTime {
        return Err(RequireViolated);
      }
      var s := Setting(table, config.tradeFeeRate, LimitOrDefault(limit, zeroForOne), baseInput, zeroForOne);
      if amount == 0 {
        return Err(InvalidSwapAmountSpecified);
      }
      if SwapOp in pool.disabled {
        return Err(NotApproved);
      }
      if !LimitInRange(s.limit, pool.sqrtPrice, zeroForOne) {
        return Err(SqrtPriceLimitOverflow);
      }
      var updated :- UpdateRewardInfosInPlace(pool, now % U32_LIMIT);
      StartsOnPath(s, l, updated, amount);
      RewardsLeaveIndex(Ix(), l, now % U32_LIMIT);
      RewardsKeepPrice(l.pool, now % U32_LIMIT);
      pool := updated;
      var turned :- WalkAndObserve(s, amount, accounts, supplied);
      SettleIgnoresTicks(s, l.(pool := updated), amount, SwapState(turned.0, turned.1, ticks), threshold);
      var _ :- SettleSwap(s, amount, turned.0, turned.1, threshold);
      TradedIsValid(ix, Ix(), l, amount, threshold, limit, zeroForOne, baseInput, St());
      return Ok(());
    }

    // ---------------------------------------------------------------------------------------
    // Administration

    /** `collect_protocol_fee` */
    method TakeProtocolFee(requested0: nat, requested1: nat) returns (r: Result<()>)
      modifies `pool, `vaults
      ensures Follows(r, L.CollectProtocolFee(old(St()), requested0, requested1))
      ensures pool.tickSpacing == old(pool.tickSpacing)
    {
      hide L.CheckUnclaimedFees;
      ghost var l := St();
      var amount0, amount1 := Min(requested0, pool.protocolFees[0]), Min(requested1, pool.protocolFees[1]);
      pool := pool.(protocolFees := [pool.protocolFees[0] - amount0, pool.protocolFees[1] - amount1]);
      var _ :- PayOut(amount0, amount1);
      var _ :- CheckUnclaimedFees();
      return Ok(());
    }

    /** `collect_fund_fee` */
    method TakeFundFee(requested0: nat, requested1: nat) returns (r: Result<()>)
      modifies `pool, `vaults
      ensures Follows(r, L.CollectFundFee(old(St()), requested0, requested1))
      ensures pool.tickSpacing == old(pool.tickSpacing)
    {
      hide L.CheckUnclaimedFees;
      var amount0, amount1 := Min(requested0, pool.fundFees[0]), Min(requested1, pool.fundFees[1]);
      pool := pool.(fundFees := [pool.fundFees[0] - amount0, pool.fundFees[1] - amount1]);
      var _ :- PayOut(amount0, amount1);
      var _ :- CheckUnclaimedFees();
      return Ok(());
    }

    /** `initialize_reward` */
    method NewReward(emissions: nat, openTime: nat, endTime: nat) returns (r: Result<()>)
      modifies `pool, `rewardVaults
      ensures Follows(r, InitializeReward(old(St()), emissions, openTime, endTime))
      ensures pool.tickSpacing == old(pool.tickSpacing)
    {
      hide FundingCeil;
      if openTime >= endTime || openTime < now || endTime < now || emissions == 0 {
        return Err(InvalidRewardInitParam);
      }
      if !PeriodInRange(endTime - openTime) {
        return Err(InvalidRewardPeriod);
      }
      var funding :- FundingCeil(endTime - openTime, emissions);
      var k := 0;
      while k < REWARD_NUM && pool.rewards[k].initialized
        invariant k <= REWARD_NUM && forall i :: 0 <= i < k ==> pool.rewards[i].initialized
      {
        k := k + 1;
      }
      if k == REWARD_NUM {
        return Err(FullRewardInfo);
      }
      pool := pool.(rewards := pool.rewards[k := RewardInfo(true, openTime, endTime, openTime, emissions)]);
      rewardVaults := rewardVaults[k := rewardVaults[k] + funding];
      return Ok(());
    }

    /** `set_reward_params` */
    method ChangeReward(k: nat, emissions: nat, openTime: nat, endTime: nat, byAdmin: bool) returns (r: Result<()>)
      modifies `pool, `rewardVaults
      ensures Follows(r, SetRewardParams(old(St()), k, emissions, openTime, endTime, byAdmin))
      ensures pool.tickSpacing == old(pool.tickSpacing)
    {
      hide L.UpdateRewardInfos, NormalUpdate, AdminUpdate;
      if k >= REWARD_NUM {
        return Err(AssertionFailed);
      }
      if !(endTime > openTime && emissions > 0 && openTime > now) {
        return Err(RequireViolated);
      }
      var updated :- UpdateRewardInfosInPlace(pool, now);
      InfosOnlyGrow(pool, now);
      pool := updated;
      if !pool.rewards[k].initialized {
        return Err(UnInitializedRewardInfo);
      }
      var changed;
      if byAdmin {
        changed :- AdminUpdateInPlace(pool.rewards[k], now, emissions, openTime, endTime);
      } else {
        if now <= pool.rewards[k].openTime {
          return Err(NotApproved);
        }
        changed :- NormalUpdateInPlace(pool.rewards[k], now, emissions, openTime, endTime);
      }
      pool := pool.(rewards := pool.rewards[k := changed.0]);
      rewardVaults := rewardVaults[k := rewardVaults[k] + changed.1];
      return Ok(());
    }

    /** `collect_remaining_rewards` */
    method TakeRemainingReward(k: nat) returns (r: Result<()>)
      modifies `pool, `rewardVaults
      ensures Follows(r, CollectRemaining(old(St()), k))
      ensures pool.tickSpacing == old(pool.tickSpacing)
    {
      hide L.UpdateRewardInfos;
      if k >= REWARD_NUM {
        return Err(AssertionFailed);
      }
      var updated :- UpdateRewardInfosInPlace(pool, now);
      InfosOnlyGrow(pool, now);
      pool := updated;
      if !pool.rewards[k].initialized {
        return Err(UnInitializedRewardInfo);
      }
      if pool.rewards[k].lastUpdateTime != pool.rewards[k].endTime {
        return Err(NotApproved);
      }
      var unclaimed :- CheckedSub(pool.total[2 + k], pool.claimed[2 + k]);
      var remaining :- CheckedSub(rewardVaults[k], unclaimed);
      rewardVaults := rewardVaults[k := rewardVaults[k] - remaining];
      return Ok(());
    }

    /** The instructions that do not touch ticks or ranges. */
    method Administrate(op: Instruction) returns (r: Result<()>)
      requires !op.Open? && !op.Increase? && !op.Decrease? && !op.Trade? && Valid()
      modifies `pool, `vaults, `rewardVaults, `config
      ensures old(PoolInv(St())) && Follows(r, Apply(old(St()), op))
      ensures pool.tickSpacing == old(pool.tickSpacing)
    {
      hide PoolInv, IndexInv, L.CollectProtocolFee, L.CollectFundFee, InitializeReward, SetRewardParams, L.UpdateRewardInfos, CollectRemaining;
      match op
      case TakeProtocolFee(requested0, requested1) => r := TakeProtocolFee(requested0, requested1);
      case TakeFundFee(requested0, requested1) => r := TakeFundFee(requested0, requested1);
      case NewReward(emissions, openTime, endTime) => r := NewReward(emissions, openTime, endTime);
      case ChangeReward(k, emissions, openTime, endTime, byAdmin) => r := ChangeReward(k, emissions, openTime, endTime, byAdmin);
      case TakeRemainingReward(k) => r := TakeRemainingReward(k);
      case UpdateAllRewards =>
        var updated :- UpdateRewardInfosInPlace(pool, now);
        InfosOnlyGrow(pool, now);
        pool := updated;
        r := Ok(());
      case SetStatus(disabled) =>
        pool := pool.(disabled := disabled);
        r := Ok(());
      case SetTradeFeeRate(rate) => r := SetRates(config.(tradeFeeRate := rate));
      case SetProtocolFeeRate(rate) => r := SetRates(config.(protocolFeeRate := rate));
      case SetFundFeeRate(rate) => r := SetRates(config.(fundFeeRate := rate));
    }

    /** `update_amm_config` */
    method SetRates(rates: AmmConfig) returns (r: Result<()>)
      modifies `config
      ensures Follows(r, WithConfig(old(St()), rates))
    {
      if rates.tradeFeeRate >= FEE_RATE_DENOMINATOR || rates.protocolFeeRate + rates.fundFeeRate > FEE_RATE_DENOMINATOR {
        return Err(AssertionFailed);
      }
      config := rates;
      return Ok(());
    }

    // ---------------------------------------------------------------------------------------
    // Transactions

    /** An instruction on a position. */
    method ChangePosition(op: Instruction, accounts: seq<int>, supplied: bool) returns (r: Result<()>)
      requires Valid() && (op.Open? || op.Increase? || op.Decrease?)
      modifies `pool, `arrays, `bitmap, `extension, `protocols, `personals, `vaults, `rewardVaults, `ticks
      ensures old(PoolInv(St()))
      ensures r.Ok? ==> Valid() && Apply(old(St()), op) == Ok(St())
      ensures r.Err? ==> Apply(old(St()), op).Err? || old(Obstructed(Ix(), St(), op, accounts, supplied))
    {
      hide PoolInv, IndexInv, L.OpenPosition, L.IncreaseLiquidity, L.DecreaseLiquidity, Sufficient, CountableRange, CountableEnds;
      ghost var l, ix := St(), Ix();
      match op
      case Open(tickLower, tickUpper, liquidity, max0, max1, baseFlag) =>
        r := OpenPosition(tickLower, tickUpper, liquidity, max0, max1, baseFlag, supplied);
      case Increase(i, liquidity, max0, max1, baseFlag) =>
        if i >= |personals| {
          return Err(AssertionFailed);
        }
        OwnerHasRange(ix, l, i);
        r := IncreaseLiquidity(i, liquidity, max0, max1, baseFlag, supplied);
      case Decrease(i, liquidity, min0, min1) =>
        if i >= |personals| {
          return Err(AssertionFailed);
        }
        OwnerHasRange(ix, l, i);
        r := DecreaseLiquidity(i, liquidity, min0, min1, supplied);
    }

    /** Execute one instruction, with the accounts passed to it. */
    method Dispatch(op: Instruction, accounts: seq<int>, supplied: bool) returns (r: Result<()>)
      requires Valid() && Observing()
      modifies `config, `pool, `arrays, `bitmap, `extension, `protocols, `personals, `vaults, `rewardVaults, `ticks, `observationIndex,
        oracle, oracle.observations
      ensures Observing() && oracle.observations == old(oracle.observations)
      ensures r.Ok? && op.Trade? ==> Observed(old(oracle.history), old(observationIndex), oracle.history, observationIndex, oracle.duration,
                                              now % 0x1_0000_0000, old(pool.sqrtPrice))
      ensures r.Ok? && !op.Trade? ==> oracle.history == old(oracle.history) && observationIndex == old(observationIndex)
      ensures old(PoolInv(St()))
      ensures r.Ok? ==> Valid() && Apply(old(St()), op) == Ok(St())
      ensures r.Ok? && op.Trade? ==>
                !old(Unobservable()) && !old(Refused(ArrayOf(pool.tickCurrent, pool.tickSpacing), pool.tickSpacing))
      ensures r.Err? ==> Apply(old(St()), op).Err? || old(Obstructed(Ix(), St(), op, accounts, supplied)) || (op.Trade? && old(Unobservable()))
    {
      hide PoolInv, IndexInv, L.OpenPosition, L.IncreaseLiquidity, L.DecreaseLiquidity, Swap, PriceInv, ConfigInv, Sufficient, CountableRange,
        CountableEnds, Observing, Observed, Refused, ArrayOf, ObservationState.Fails;
      ghost var l, ix := St(), Ix();
      if op.Open? || op.Increase? || op.Decrease? {
        r := ChangePosition(op, accounts, supplied);
      } else if op.Trade? {
        r := Trade(accounts, op.amount, op.threshold, op.limit, op.zeroForOne, op.baseInput, supplied);
      } else {
        r := Administrate(op);
        if r.Ok? { AdministratedIsValid(ix, l, op, St()); }
      }
    }

    /** Nothing of an aborted transaction stays. */
    method RollBack(l: L.Ledger, ix: Index, ghost ticks0: map<int, TickState>)
      requires l.table == table && l.now == now
      modifies `config, `pool, `arrays, `bitmap, `extension, `protocols, `personals, `vaults, `rewardVaults, `ticks
      ensures St() == l.(ticks := ticks0) && Ix() == ix
    {
      config, pool, arrays, bitmap, extension := l.config, l.pool, ix.arrays, ix.bitmap, ix.extension;
      protocols, personals, vaults, rewardVaults, ticks := l.protocols, l.personals, l.vaults, l.rewardVaults, ticks0;
    }

    /** If an instruction errs or panics, nothing is committed. A swap that goes through leaves at most one
        observation of the price it met. */
    method Transact(op: Instruction, accounts: seq<int>, supplied: bool) returns (r: Result<()>)
      requires Valid() && Observing()
      modifies this, oracle, oracle.observations
      ensures Valid() && Observing() && oracle.observations == old(oracle.observations)
      ensures old(PoolInv(St())) && old(pool.tickSpacing) > 0
      ensures r.Ok? ==> Apply(old(St()), op) == Ok(St()) && !old(Refuses(St(), op)) && (op.Trade? ==> !old(Unobservable()))
      ensures r.Ok? ==> Does(old(St()), op, St())
      ensures r.Ok? && op.Trade? ==> Observed(old(oracle.history), old(observationIndex), oracle.history, observationIndex, oracle.duration,
                                              now % 0x1_0000_0000, old(pool.sqrtPrice))
      ensures r.Ok? && !op.Trade? ==> oracle.history == old(oracle.history) && observationIndex == old(observationIndex)
      ensures r.Err? ==> Apply(old(St()), op).Err? || old(Obstructed(Ix(), St(), op, accounts, supplied)) || (op.Trade? && old(Unobservable()))
      ensures r.Err? ==> St() == old(St()) && Ix() == old(Ix())
      ensures r.Err? ==> oracle.history == old(oracle.history) && observationIndex == old(observationIndex) &&
                         oracle.observations[..] == old(oracle.observations[..])
    {
      hide PoolInv, IndexInv, Apply, Obstructed, Refuses, Observed, Refused, ArrayOf, ObservationState.Fails, Does;
      SpacingIsPositive(Ix(), St());
      var initialized0, ring0, index0 := oracle.initialized, oracle.observations[..], observationIndex;
      ghost var history0, start0 := oracle.history, oracle.start;
      ghost var l := St();
      var saved := L.Ledger(table, config, pool, map[], protocols, personals, vaults, rewardVaults, now);
      var ix := Ix();
      r := Dispatch(op, accounts, supplied);
      if r.Err? {
        RollBack(saved, ix, l.ticks);
        observationIndex := index0;
        oracle.Restore(ring0, initialized0, history0, start0);
      } else {
        GoesThrough(Ix(), l, op, St());
        InstructionDoes(l, op, St());
      }
    }
  }

  /** A swap of token `c` that has been settled: each share is in its own figure of that token, and the tokens have moved. */
  ghost predicate Settles(l: L.Ledger, l': L.Ledger, c: int, amount: nat, path: Path, taken: Takings, baseInput: bool, threshold: nat)
    requires 0 <= c < 2
  {
    && l'.pool.protocolFees[c] == l.pool.protocolFees[c] + taken.protocolFee && l'.pool.protocolFees[1 - c] == l.pool.protocolFees[1 - c]
    && l'.pool.fundFees[c] == l.pool.fundFees[c] + taken.fundFee && l'.pool.fundFees[1 - c] == l.pool.fundFees[1 - c]
    && l'.pool.total == l.pool.total[c := l.pool.total[c] + taken.lpFee] && l'.pool.growthGlobal == l.pool.growthGlobal[c := taken.growth]
    && l'.pool.sqrtPrice == path.sqrtPrice && l'.pool.tickCurrent == path.tick && l'.pool.liquidity == path.liquidity
    && var paid, out := InOf(amount, path, baseInput), OutOf(amount, path, baseInput);
    && paid > 0 && out > 0 && (if baseInput then threshold <= out else paid <= threshold) && TokensMoved(l, l', c, paid, out)
  }

  lemma SettledIs(s: Setting, l: L.Ledger, amount: nat, st: SwapState, threshold: nat, l': L.Ledger)
    requires Settle(s, l, amount, st, threshold) == Ok(l')
    ensures Settles(l, l', if s.zeroForOne then 0 else 1, amount, st.path, st.taken, s.baseInput, threshold)
  {}

  lemma DecreasesSafely(l: L.Ledger, i: nat, liquidity: nat, min0: nat, min1: nat, l': L.Ledger)
    requires PoolInv(l) && i < |l.personals| && l.personals[i].protocol < |l.protocols|
    requires L.DecreaseLiquidity(l, i, liquidity, min0, min1) == Ok(l')
    ensures Decreases(l, i, liquidity, min0, min1, l')
  {
    hide Inv, L.DecreaseLiquidity, Decreases;
    DecreaseDecreases(l, i, liquidity, min0, min1, l');
  }

  lemma PriceFits(l: L.Ledger)
    requires PriceInv(l)
    ensures l.pool.sqrtPrice < U128_LIMIT
  {
    PriceIsMonotone(l.table, l.pool.tickCurrent + 1, l.pool.tickCurrent + 1);
  }

  lemma SpacingIsPositive(ix: Index, l: L.Ledger)
    requires StateInv(ix, l)
    ensures 0 < l.pool.tickSpacing
  {
    hide PoolInv;
  }

  /** An initialized tick lies in a marked array, and so in none that is refused. */
  lemma InitializedIsNotRefused(ix: Index, spacing: nat, ticks: map<int, TickState>, t: int)
    requires Holds(ix, spacing, ticks) && TickOf(ticks, t).IsInitialized()
    ensures !Refused(ArrayOf(t, spacing), spacing)
  {
    hide Coherent, Represents, Refused, ArrayOf, TickCount;
    TickIsSlot(ix, spacing, ticks, t);
    BitsOfHeld(ix, spacing, ticks);
  }

  /** A mint that went through left both its ends initialized. */
  lemma MintedIsNotRefused(ix: Index, l: L.Ledger, j: nat)
    requires StateInv(ix, l) && j < |l.protocols| && l.protocols[j].liquidity > 0
    ensures 0 < l.pool.tickSpacing && !RefusesEnd(l.protocols[j].tickLower, l.protocols[j].tickUpper, l.pool.tickSpacing)
  {
    hide TimesInv, Holds, IndexInv, HoldingsInv, AccrualInv, ClaimsCovered, Refused, ArrayOf;
    IndexHolds(ix, l);
    LiveRangeIsInitialized(l, j);
    InitializedIsNotRefused(ix, l.pool.tickSpacing, l.ticks, l.protocols[j].tickLower);
    InitializedIsNotRefused(ix, l.pool.tickSpacing, l.ticks, l.protocols[j].tickUpper);
  }

  /** What a mint by a positive amount leaves of its range. */
  lemma MintedRange(l: L.Ledger, j: nat, amount: nat, m: L.Modified)
    requires j < |l.protocols| && 0 < amount && Modifies(l, j, amount, l.now, m)
    ensures m.protocol.liquidity > 0 && m.pool.tickSpacing == l.pool.tickSpacing
    ensures NamedSlots(l) && l.protocols[j].tickLower != l.protocols[j].tickUpper ==>
              m.protocol.tickLower == l.protocols[j].tickLower && m.protocol.tickUpper == l.protocols[j].tickUpper
  {
    hide L.ModifyPosition, L.UpdateRewardInfos, GrowthInside;
    var p := l.protocols[j];
    var updated, a, flippedA, b, flippedB :=
      ModifyUnfolds(l.table, l.pool, p, L.NamedTick(l.ticks, p.tickLower), L.NamedTick(l.ticks, p.tickUpper), amount, l.now, m);
    InfosOnlyGrow(l.pool, l.now);
  }

  lemma IncreasedRange(ix': Index, l: L.Ledger, op: Instruction, l': L.Ledger)
    requires PoolInv(l) && Apply(l, op) == Ok(l') && op.Increase? && StateInv(ix', l') && 0 < l.pool.tickSpacing
    ensures !Refuses(l, op)
  {
    hide IndexInv, TimesInv, HoldingsInv, AccrualInv, ClaimsCovered, LiquidityInv, GrowthInv, PriceInv, ConfigInv, L.IncreaseLiquidity, Modifies,
      L.Credit, RefusesEnd, TotalsFit, L.RequestedLiquidity;
    var k := l.personals[op.position].protocol;
    var amount, m, p := IncreaseUnfolds(l, op.position, op.liquidity, op.max0, op.max1, op.baseFlag, l');
    MintedRange(l, k, amount, m);
    MintedIsNotRefused(ix', l', k);
  }

  lemma OpenedRange(ix': Index, l: L.Ledger, op: Instruction, l': L.Ledger)
    requires PoolInv(l) && Apply(l, op) == Ok(l') && op.Open? && op.liquidity > 0 && StateInv(ix', l') && 0 < l.pool.tickSpacing
    ensures !Refuses(l, op)
  {
    hide IndexInv, TimesInv, HoldingsInv, AccrualInv, ClaimsCovered, LiquidityInv, GrowthInv, PriceInv, ConfigInv, L.OpenPosition, Modifies,
      L.AddLiquidity, L.FindOrCreate, RefusesEnd, TotalsFit, L.RequestedLiquidity;
    var found, j, added := OpenParts(l, op.tickLower, op.tickUpper, op.liquidity, op.max0, op.max1, op.baseFlag, l');
    FindOrCreateIs(l, op.tickLower, op.tickUpper);
    CreatedKeepsSlots(l, op.tickLower, op.tickUpper);
    var amount, m := AddUnfolds(found, j, op.liquidity, op.max0, op.max1, op.baseFlag, l.now, added);
    MintedRange(found, j, amount, m);
    MintedIsNotRefused(ix', l', j);
  }

  /** No instruction that the arrays refuse goes through. */
  lemma GoesThrough(ix': Index, l: L.Ledger, op: Instruction, l': L.Ledger)
    requires PoolInv(l) && Apply(l, op) == Ok(l') && StateInv(ix', l') && 0 < l.pool.tickSpacing
    requires op.Trade? ==> !Refused(ArrayOf(l.pool.tickCurrent, l.pool.tickSpacing), l.pool.tickSpacing)
    ensures !Refuses(l, op)
  {
    hide PoolInv, StateInv, Apply, ArrayOf, Refused, RefusesEnd;
    if op.Increase? { IncreasedRange(ix', l, op, l'); }
    if op.Open? && op.liquidity > 0 { OpenedRange(ix', l, op, l'); }
  }

  lemma NotRefused(ix: Index, spacing: nat, ticks: map<int, TickState>, tick: int, zeroForOne: bool, supplied: bool)
    requires Holds(ix, spacing, ticks) && MIN_TICK <= tick <= MAX_TICK
    ensures FirstInitializedArray(ix, tick, spacing, zeroForOne, supplied).Ok? ==> !Refused(ArrayOf(tick, spacing), spacing)
  {
    hide Coherent, Represents, FirstInitializedArray, Refused, ArrayOf;
    BitsOfHeld(ix, spacing, ticks);
    if Refused(ArrayOf(tick, spacing), spacing) { RefusedFindsNoArray(ix, tick, spacing, zeroForOne, supplied); }
  }

  lemma OwnerHasRange(ix: Index, l: L.Ledger, i: nat)
    requires StateInv(ix, l) && i < |l.personals|
    ensures l.personals[i].protocol < |l.protocols|
  {
    hide IndexInv;
  }

  lemma AdministratedIsValid(ix: Index, l: L.Ledger, op: Instruction, l': L.Ledger)
    requires StateInv(ix, l) && Apply(l, op) == Ok(l')
    requires l'.ticks == l.ticks && l'.protocols == l.protocols && l'.pool.tickSpacing == l.pool.tickSpacing
    ensures StateInv(ix, l')
  {
    hide PoolInv, IndexInv, Apply;
    InstructionKeepsInv(l, op, l');
    IndexFrame(ix, l, l');
  }

  lemma TradesInOrder(ix: Index, l: L.Ledger)
    requires StateInv(ix, l)
    ensures Inv(l) && PriceInv(l) && ConfigInv(l.config) && IndexInv(ix, l) && TimesInv(l.pool.rewards, l.now)
  {
    hide ClaimsInv, PriceInv, ConfigInv, IndexInv, TimesInv, TotalsFit;
  }

  lemma RewardsLeaveIndex(ix: Index, l: L.Ledger, timestamp: nat)
    requires Inv(l) && IndexInv(ix, l) && L.UpdateRewardInfos(l.pool, timestamp).Ok?
    ensures Inv(WithRewards(l, timestamp)) && IndexInv(ix, WithRewards(l, timestamp))
    ensures WithRewards(l, timestamp).pool.tickSpacing == l.pool.tickSpacing
  {
    hide Inv, IndexInv, L.UpdateRewardInfos;
    WithRewardsKeepsInv(l, timestamp);
    IndexFrame(ix, l, WithRewards(l, timestamp));
  }

  lemma SettleIgnoresTicks(s: Setting, l: L.Ledger, amount: nat, st: SwapState, threshold: nat)
    ensures Settle(s, l.(ticks := st.ticks), amount, st, threshold) == Settle(s, l, amount, st, threshold)
  {}

  lemma TradedIsValid(before: Index, ix: Index, l: L.Ledger, amount: nat, threshold: nat, limit: nat, zeroForOne: bool, baseInput: bool, l': L.Ledger)
    requires PoolInv(l) && PriceInv(l) && ConfigInv(l.config) && IndexInv(before, l)
    requires Swap(l, amount, threshold, limit, zeroForOne, baseInput) == Ok(l')
    requires l'.now == l.now && l'.protocols == l.protocols && l'.pool.tickSpacing == l.pool.tickSpacing
    requires Holds(ix, l'.pool.tickSpacing, l'.ticks) && ix.arrays.Keys == before.arrays.Keys
    ensures StateInv(ix, l')
  {
    hide Inv, TimesInv, PriceInv, ConfigInv, Swap, Coherent, Represents, Aligned, ArrayOf;
    SwapKeepsInv(l, amount, threshold, limit, zeroForOne, baseInput, l');
    SwapKeepsTimes(l, amount, threshold, limit, zeroForOne, baseInput, l');
  }

  lemma StartsInOrder(s: Setting, ix: Index, l: L.Ledger, amount: nat)
    requires Inv(l) && IndexInv(ix, l)
    ensures 0 < l.pool.tickSpacing && Holds(ix, l.pool.tickSpacing, l.ticks)
    ensures TradeInv(Midway(s, l, amount, Start(l.pool, l.ticks, amount, s.zeroForOne)))
    ensures MIN_TICK <= l.pool.tickCurrent <= MAX_TICK
  {
    hide Holds, Midway, Start;
    IndexHolds(ix, l);
    StartIsUnchanged(s, l, amount);
  }

  lemma PriceWrittenBack(s: Setting, pool: PoolState, st: SwapState)
    ensures WrittenBack(s, pool, st).sqrtPrice == st.path.sqrtPrice && WrittenBack(s, pool, st).tickSpacing == pool.tickSpacing
  {}

  lemma NoTickNoTurn(s: Setting, config: AmmConfig, pool: PoolState, st: SwapState)
    ensures NextTick(st.ticks, st.path.tick, s.zeroForOne) == None ==> SwapOnce(s, config, pool, st).Err?
  {
    hide NextTick, Advance, Take, CrossTick;
  }

  lemma CompleteKept(ix: Index, ix': Index, rest: seq<int>, c: int, zeroForOne: bool, supplied: bool)
    requires Complete(ix, rest, c, zeroForOne, supplied) && ix'.arrays.Keys == ix.arrays.Keys
    requires forall d :: Marked(ix', d) <==> Marked(ix, d)
    ensures Complete(ix', rest, c, zeroForOne, supplied)
  {
    hide Marked;
  }

  /** With all arrays passed, a swap that finds no first array has no tick to go to. */
  lemma SufficientFindsArray(s: Setting, config: AmmConfig, ix: Index, l: L.Ledger, accounts: seq<int>, amount: nat, supplied: bool)
    requires 0 < l.pool.tickSpacing && Holds(ix, l.pool.tickSpacing, l.ticks) && MIN_TICK <= l.pool.tickCurrent <= MAX_TICK
    requires ValidSetting(s) && OnPath(s, Start(l.pool, l.ticks, amount, s.zeroForOne).path)
    requires amount != 0 && l.pool.sqrtPrice != s.limit
    requires Sufficient(ix, accounts, l.pool.tickCurrent, l.pool.tickSpacing, s.zeroForOne, supplied)
    requires FirstInitializedArray(ix, l.pool.tickCurrent, l.pool.tickSpacing, s.zeroForOne, supplied).Err?
    ensures SwapLoop(s, config, l.pool, Start(l.pool, l.ticks, amount, s.zeroForOne)).Err?
  {
    hide Coherent, Represents, FirstInitializedArray, NextTick, SwapOnce, OnPath, ValidSetting, Refused;
    BitsOfHeld(ix, l.pool.tickSpacing, l.ticks);
    FirstInitializedArrayFailsOnlyBy(ix, l.pool.tickCurrent, l.pool.tickSpacing, s.zeroForOne);
    NoArrayNoTick(ix, l.pool.tickSpacing, l.ticks, l.pool.tickCurrent, s.zeroForOne);
    NoTickNoTurn(s, config, l.pool, Start(l.pool, l.ticks, amount, s.zeroForOne));
  }

  /** With all arrays passed the first one is among them, and the ones needed later stay. */
  lemma FirstTakenIs(ix: Index, l: L.Ledger, accounts: seq<int>, taking: Result<(int, seq<int>)>, k: nat, zeroForOne: bool, supplied: bool)
    requires 0 < l.pool.tickSpacing && Holds(ix, l.pool.tickSpacing, l.ticks) && MIN_TICK <= l.pool.tickCurrent <= MAX_TICK
    requires FirstInitializedArray(ix, l.pool.tickCurrent, l.pool.tickSpacing, zeroForOne, supplied).Ok?
    requires var start := FirstInitializedArray(ix, l.pool.tickCurrent, l.pool.tickSpacing, zeroForOne, supplied).value.1;
             && (taking.Ok? ==> taking.value.0 in ix.arrays && ix.arrays[taking.value.0].start == start)
             && (taking.Ok? ==> k < |accounts| && taking.value == (accounts[k], accounts[k + 1..]))
             && (taking.Err? && (forall d :: d in accounts ==> d in ix.arrays) ==> forall d :: d in accounts ==> ix.arrays[d].start != start)
    ensures Sufficient(ix, accounts, l.pool.tickCurrent, l.pool.tickSpacing, zeroForOne, supplied) ==>
              taking.Ok? && Complete(ix, taking.value.1, taking.value.0, zeroForOne, supplied)
  {
    hide Coherent, Represents, FirstInitializedArray, IsSet, TickCount, ArrayOf, Refused;
    var spacing, tick := l.pool.tickSpacing, l.pool.tickCurrent;
    if Sufficient(ix, accounts, tick, spacing, zeroForOne, supplied) {
      BitsOfHeld(ix, spacing, l.ticks);
      var c := FirstInitializedArrayIs(ix, tick, spacing, zeroForOne, supplied);
      assert c in accounts;
      StartsDiffer(ix, spacing, l.ticks, c, c);
      if taking.Ok? {
        StartsDiffer(ix, spacing, l.ticks, taking.value.0, c);
        RestCovers(ix, accounts, ArrayOf(tick, spacing), k, zeroForOne);
      }
    }
  }

  lemma TurnKeepsTradeInv(s: Setting, l: L.Ledger, amount: nat, st: SwapState, st': SwapState)
    requires ValidSetting(s) && s.table == l.table && OnPath(s, st.path) && ConfigInv(l.config)
    requires TradeInv(Midway(s, l, amount, st)) && SwapOnce(s, l.config, l.pool, st) == Ok(st')
    ensures TradeInv(Midway(s, l, amount, st'))
  {
    hide OnPath, ValidSetting, TradeInv, SwapOnce, Midway, Turn;
    var hop, forLiquidity := SwapOnceTurns(s, l.config, l, st, st');
    TurnKeepsTrade(s, l, amount, st, hop, st', forLiquidity);
  }

  /** After a crossing the search stands in the array of the tick crossed. */
  lemma StillSearching(s: Setting, config: AmmConfig, pool: PoolState, ix: Index, spacing: nat, st: SwapState, st': SwapState, next: int)
    requires ValidSetting(s) && OnPath(s, st.path) && SwapOnce(s, config, pool, st) == Ok(st') && !Done(s, st'.path)
    requires NextTick(st.ticks, st.path.tick, s.zeroForOne) == Some(next)
    requires Holds(ix, spacing, st'.ticks) && 0 < spacing && Marked(ix, ArrayOf(next, spacing))
    ensures Searching(ix, spacing, st'.ticks, st'.path.tick, ArrayOf(next, spacing), true, s.zeroForOne)
  {
    hide Holds, OnPath, ValidSetting, SwapOnce, Searching, NextTick, IsSet, SamePath;
    TurnGoesOn(s, config, pool, st, st', next);
    SameNextTick(st'.ticks, st.ticks, st.path.tick, s.zeroForOne);
    CrossedKeepsSearching(ix, spacing, st'.ticks, st.path.tick, next, s.zeroForOne);
  }

  lemma TurnGoesOn(s: Setting, config: AmmConfig, pool: PoolState, st: SwapState, st': SwapState, next: int)
    requires ValidSetting(s) && OnPath(s, st.path) && SwapOnce(s, config, pool, st) == Ok(st') && !Done(s, st'.path)
    requires NextTick(st.ticks, st.path.tick, s.zeroForOne) == Some(next)
    ensures st'.path.tick == (if s.zeroForOne then next - 1 else next) && SamePath(st'.ticks, st.ticks)
  {
    hide HopFrom, Take, CrossTick, OnPath, ValidSetting, GoodHop, CrossedLiquidity;
    var hop := HopFrom(s, st.ticks, st.path).value;
    HopIsGood(s, st.ticks, st.path);
    HopArrivesOrEnds(s, st.ticks, st.path, hop, st'.path);
    HopHeadsFor(s, st.ticks, st.path, hop);
    CrossedOnlyGrowth(TickOf(st.ticks, next), pool.growthGlobal[InToken(s.zeroForOne) := st'.taken.growth], pool.rewards);
    SamePathWithGrowth(st.ticks, next, TickOf(st'.ticks, next));
  }

  lemma HopHeadsFor(s: Setting, ticks: map<int, TickState>, p: Path, hop: Hop)
    requires HopFrom(s, ticks, p) == Ok(hop)
    ensures NextTick(ticks, p.tick, s.zeroForOne) == Some(hop.next)
  {
    hide NextTick, StepOf;
  }

  lemma SamePathWithGrowth(ticks: map<int, TickState>, t: int, state: TickState)
    ensures state == TickOf(ticks, t).(growthOutside := state.growthOutside) ==> SamePath(ticks[t := state], ticks)
  {}

  lemma OpenedIsValid(ix: Index, l: L.Ledger, added: L.Ledger, tickLower: int, tickUpper: int, liquidity: nat, max0: nat, max1: nat,
                      baseFlag: Option<bool>, l': L.Ledger)
    requires PoolInv(l) && IndexInv(ix, added)
    requires L.OpenPosition(l, tickLower, tickUpper, liquidity, max0, max1, baseFlag) == Ok(l')
    requires l' == added.(personals := l'.personals)
    ensures StateInv(ix, l')
  {
    hide Inv, TimesInv, IndexInv, L.OpenPosition;
    OpenKeepsInv(l, tickLower, tickUpper, liquidity, max0, max1, baseFlag, l');
    OpenKeepsTimes(l, tickLower, tickUpper, liquidity, max0, max1, baseFlag, l');
    IndexFrame(ix, added, l');
  }

  lemma RangeFound(l: L.Ledger, tickLower: int, tickUpper: int, supplied: bool)
    requires 0 < l.pool.tickSpacing
    ensures var (found, j) := L.FindOrCreate(l, tickLower, tickUpper);
            found.pool == l.pool &&
            (CountableRange(found, j, true, supplied) <==> CountableEnds(tickLower, tickUpper, l.pool.tickSpacing, true, supplied))
  {
    hide Countable;
  }

  lemma ArrayInRange(tick: int, spacing: nat)
    requires 0 < spacing && MIN_TICK <= tick <= MAX_TICK
    ensures FirstArray(spacing) <= ArrayOf(tick, spacing) <= LastArray(spacing)
  {
    StartIndexIsFloor(tick, spacing);
    StartIndexIsFloor(MIN_TICK, spacing);
    StartIndexIsFloor(MAX_TICK, spacing);
    Neighbour(ArrayOf(tick, spacing), TickCount(spacing));
    Neighbour(LastArray(spacing), TickCount(spacing));
    CompareArrays(FirstArray(spacing), ArrayOf(tick, spacing) + 1, TickCount(spacing));
    CompareArrays(ArrayOf(tick, spacing), LastArray(spacing) + 1, TickCount(spacing));
  }

  lemma SlotKeys(ix: Index, tick: int, spacing: nat, state: TickState)
    requires 0 < spacing && WellFormed(ix, spacing) && Aligned(tick, spacing) && ArrayOf(tick, spacing) in ix.arrays
    ensures WithSlot(ix, tick, spacing, state).arrays.Keys == ix.arrays.Keys
  {
    hide ArrayOf, Aligned;
  }

  lemma ArrayHasShape(ix: Index, spacing: nat, c: int)
    requires 0 < spacing && WellFormed(ix, spacing) && c in ix.arrays
    ensures ix.arrays[c].start == c * TickCount(spacing) && |ix.arrays[c].ticks| == TICK_ARRAY_SIZE
  {}

  lemma RangeIsPlaced(ix: Index, ix': Index, before: seq<ProtocolPosition>, after: seq<ProtocolPosition>, spacing: nat)
    requires 0 < spacing && PlacedRanges(ix, before, spacing) && ix'.arrays.Keys == ix.arrays.Keys
    requires |after| == |before| + 1 && after[..|before|] == before
    requires Placed(ix, after[|before|].tickLower, spacing) && Placed(ix, after[|before|].tickUpper, spacing)
    ensures PlacedRanges(ix', after, spacing)
  {
    hide Aligned, ArrayOf;
  }

  lemma NothingToMint(l: L.Ledger, j: nat, liquidity: nat, max0: nat, max1: nat, baseFlag: Option<bool>)
    requires j < |l.protocols|
    ensures var delta := L.RequestedLiquidity(l.table, l.pool.sqrtPrice, l.protocols[j], liquidity, max0, max1, baseFlag);
            delta.Err? || delta.value == 0 || delta.value >= I128_LIMIT ==> L.AddLiquidity(l, j, liquidity, max0, max1, baseFlag, l.now).Err?
  {
    hide L.RequestedLiquidity, L.ModifyPosition, L.Minted;
  }

  /** The ledger's mint, once the liquidity is worked out. */
  lemma MintOf(l: L.Ledger, j: nat, liquidity: nat, max0: nat, max1: nat, baseFlag: Option<bool>, delta: nat)
    requires j < |l.protocols| && 0 < delta < I128_LIMIT
    requires L.RequestedLiquidity(l.table, l.pool.sqrtPrice, l.protocols[j], liquidity, max0, max1, baseFlag) == Ok(delta)
    ensures var p := l.protocols[j];
            var spec := L.AddLiquidity(l, j, liquidity, max0, max1, baseFlag, l.now);
            var m := L.ModifyPosition(l.table, l.pool, p, L.NamedTick(l.ticks, p.tickLower), L.NamedTick(l.ticks, p.tickUpper), delta, l.now);
            if m.Ok? && (m.value.amount0 > 0 || m.value.amount1 > 0) && 0 <= m.value.amount0 <= max0 && 0 <= m.value.amount1 <= max1
            then spec == Ok(L.Minted(l, j, m.value)) else spec.Err?
  {
    hide L.RequestedLiquidity, L.ModifyPosition, L.Minted;
  }

  /** A mint's arrays follow it when they can be counted. */
  lemma MintIsStored(ix: Index, l: L.Ledger, j: nat, delta: nat, supplied: bool)
    requires StateInv(ix, l) && j < |l.protocols| && 0 < delta
    ensures var p := l.protocols[j];
            var m := L.ModifyPosition(l.table, l.pool, p, L.NamedTick(l.ticks, p.tickLower), L.NamedTick(l.ticks, p.tickUpper), delta, l.now);
            m.Ok? && CountableRange(l, j, true, supplied) ==> StoreModifiedTicks(ix, l, j, m.value, true, supplied).Ok?
  {
    hide L.ModifyPosition, CountableRange, StoreModifiedTicks, PoolInv, Coherent, Represents;
    var p := l.protocols[j];
    var m := L.ModifyPosition(l.table, l.pool, p, L.NamedTick(l.ticks, p.tickLower), L.NamedTick(l.ticks, p.tickUpper), delta, l.now);
    if m.Ok? && CountableRange(l, j, true, supplied) {
      OrderedRange(l, j);
      ModifyIsStored(ix, l, j, delta, l.now, m.value, supplied);
    }
  }

  lemma OrderedRange(l: L.Ledger, j: nat)
    requires PoolInv(l) && j < |l.protocols|
    ensures l.protocols[j].tickLower < l.protocols[j].tickUpper && LiquidityInv(l) && NamedSlots(l)
  {
    hide TimesInv, AccrualInv, ClaimsCovered, HoldingsInv;
  }

  /** So do a burn's. */
  lemma BurnIsStored(ix: Index, l: L.Ledger, j: nat, liquidity: nat, supplied: bool)
    requires StateInv(ix, l) && j < |l.protocols|
    ensures var p := l.protocols[j];
            var m := L.ModifyPosition(l.table, l.pool, p, TickOf(l.ticks, p.tickLower), TickOf(l.ticks, p.tickUpper), 0 - liquidity, l.now);
            m.Ok? && CountableRange(l, j, false, supplied) ==> StoreModifiedTicks(ix, l, j, m.value, false, supplied).Ok?
  {
    hide L.ModifyPosition, CountableRange, StoreModifiedTicks, PoolInv, Coherent, Represents, Modifies, LiquidityInv, NamedSlots;
    var p := l.protocols[j];
    var m := L.ModifyPosition(l.table, l.pool, p, TickOf(l.ticks, p.tickLower), TickOf(l.ticks, p.tickUpper), 0 - liquidity, l.now);
    if m.Ok? && CountableRange(l, j, false, supplied) {
      OrderedRange(l, j);
      BurnFindsNamedTicks(l, j, liquidity, l.now, m.value);
      ModifyIsStored(ix, l, j, 0 - liquidity, l.now, m.value, supplied);
    }
  }

  lemma SlotsRepresented(ix: Index, spacing: nat, ticks: map<int, TickState>, tick: int)
    requires 0 < spacing && WellFormed(ix, spacing) && Represents(ix, spacing, ticks) && Aligned(tick, spacing)
    ensures SlotAt(ix, tick, spacing) == TickOf(ticks, tick)
  {}

  lemma CreatedIsValid(l: L.Ledger, tickLower: int, tickUpper: int)
    requires PoolInv(l) && MIN_TICK <= tickLower < tickUpper <= MAX_TICK
    ensures PoolInv(L.Created(l, tickLower, tickUpper))
  {
    hide Inv, TimesInv;
    CreatedKeepsInv(l, tickLower, tickUpper);
  }

  lemma DecreasedIsValid(ix: Index, l: L.Ledger, burnt: L.Ledger, i: nat, liquidity: nat, min0: nat, min1: nat, l': L.Ledger)
    requires PoolInv(l) && IndexInv(ix, burnt) && i < |l.personals| && l.personals[i].protocol < |l.protocols|
    requires L.DecreaseLiquidity(l, i, liquidity, min0, min1) == Ok(l') && l'.now == l.now
    requires l'.ticks == burnt.ticks && l'.protocols == burnt.protocols && l'.pool.tickSpacing == burnt.pool.tickSpacing
    ensures StateInv(ix, l')
  {
    hide Inv, TimesInv, IndexInv, L.DecreaseLiquidity;
    DecreaseKeepsInv(l, i, liquidity, min0, min1, l');
    DecreaseKeepsTimes(l, i, liquidity, min0, min1, l');
    IndexFrame(ix, burnt, l');
  }

  lemma BurntKeepsIndex(ix: Index, l: L.Ledger, j: nat, liquidity: nat, m: L.Modified, supplied: bool, ix': Index)
    requires StateInv(ix, l) && j < |l.protocols|
    requires var p := l.protocols[j];
             L.ModifyPosition(l.table, l.pool, p, TickOf(l.ticks, p.tickLower), TickOf(l.ticks, p.tickUpper), 0 - liquidity, l.now) == Ok(m)
    requires IndexInv(ix, l) && StoreModifiedTicks(ix, l, j, m, false, supplied) == Ok(ix')
    ensures IndexInv(ix', L.StoreModified(l, j, m))
  {
    hide L.ModifyPosition, StoreModifiedTicks, IndexInv, TimesInv, GrowthInv, HoldingsInv, AccrualInv, ClaimsCovered, NamedSlots, LiquidityInv;
    BurnFindsNamedTicks(l, j, liquidity, l.now, m);
    RangeInOrder(l, j);
    ModifyKeepsIndex(ix, l, j, 0 - liquidity, l.now, m, supplied, ix');
  }

  /** A position credited and written back leaves the index alone. */
  lemma IncreasedIsValid(ix: Index, l: L.Ledger, added: L.Ledger, i: nat, liquidity: nat, max0: nat, max1: nat, baseFlag: Option<bool>,
                         l': L.Ledger)
    requires PoolInv(l) && StateInv(ix, added) && i < |l.personals| && l.personals[i].protocol < |l.protocols|
    requires L.IncreaseLiquidity(l, i, liquidity, max0, max1, baseFlag) == Ok(l')
    requires l' == added.(personals := l'.personals)
    ensures StateInv(ix, l')
  {
    hide Inv, TimesInv, IndexInv, L.IncreaseLiquidity;
    IncreaseKeepsInv(l, i, liquidity, max0, max1, baseFlag, l');
    IncreaseKeepsTimes(l, i, liquidity, max0, max1, baseFlag, l');
    IndexFrame(ix, added, l');
  }

  lemma KeysAfterFlip(flipped: bool, ix: Index, c: int, spacing: nat, add: bool, supplied: bool)
    requires 0 < spacing && c in ix.arrays && FlipIf(flipped, ix, c, spacing, add, supplied).Ok?
    ensures FlipIf(flipped, ix, c, spacing, add, supplied).value.arrays.Keys == ix.arrays.Keys
  {
    hide GetBitmap, Overflows, OffsetInBitmap, FlipAt;
  }

  lemma MintedIsValid(ix: Index, l: L.Ledger, j: nat, delta: nat, m: L.Modified, supplied: bool, ix': Index)
    requires StateInv(ix, l) && j < |l.protocols| && 0 < delta && Modifies(l, j, delta, l.now, m)
    requires StoreModifiedTicks(ix, l, j, m, true, supplied) == Ok(ix')
    ensures StateInv(ix', L.Minted(l, j, m))
  {
    hide Modifies, StoreModifiedTicks, IndexInv, TimesInv, Inv;
    MintKeepsInv(l, j, delta, l.now, m);
    ModifyKeepsTimes(l, j, delta, m);
    RangeInOrder(l, j);
    ModifyKeepsIndex(ix, l, j, delta, l.now, m, supplied, ix');
    IndexFrame(ix', L.StoreModified(l, j, m), L.Minted(l, j, m));
  }

  lemma ModifyKeepsTimes(l: L.Ledger, j: nat, delta: int, m: L.Modified)
    requires j < |l.protocols| && Modifies(l, j, delta, l.now, m) && TimesInv(l.pool.rewards, l.now)
    ensures TimesInv(m.pool.rewards, l.now)
  {
    hide L.ModifyPosition, L.UpdateRewardInfos, TimesInv;
    var p := l.protocols[j];
    var updated, a, flippedA, b, flippedB := ModifyUnfolds(l.table, l.pool, p, L.NamedTick(l.ticks, p.tickLower),
                                                           L.NamedTick(l.ticks, p.tickUpper), delta, l.now, m);
    UpdateInfosKeepTimes(l.pool, l.now, l.now);
  }

  lemma RangeInOrder(l: L.Ledger, j: nat)
    requires Inv(l) && j < |l.protocols|
    ensures MIN_TICK <= l.protocols[j].tickLower < l.protocols[j].tickUpper <= MAX_TICK && NamedSlots(l)
  {}

  lemma IndexFrame(ix: Index, l: L.Ledger, l': L.Ledger)
    requires IndexInv(ix, l) && l'.ticks == l.ticks && l'.protocols == l.protocols && l'.pool.tickSpacing == l.pool.tickSpacing
    ensures IndexInv(ix, l')
  {}
}
