/** Ticks and the growth inside a tick range (programs/amm/src/states/tick_array.rs). A tick is
    copied out of its array, changed, and written back, so the changes are functions on values. */
module TickGrowth {
  import opened Wrappers
  import opened FullMath
  import opened LiquidityMath
  import opened PoolTypes

  /** Fee channels are always on, a reward channel once its reward is initialized. */
  predicate Live(rewards: Rewards, c: int) {
    0 <= c < 5 && (c < 2 || rewards[c - 2].initialized)
  }

  /** `checked_add` / `checked_sub` on i128 */
  function CheckedI128(x: int): Result<int> {
    if x < I128_LIMIT && -x <= I128_LIMIT then Ok(x) else Err(Overflow)
  }

  /** `TickState::update`; the flag tells whether the tick was flipped. */
  function UpdateTick(t: TickState, tickCurrent: int, delta: int, growthGlobal: Five, upper: bool)
    : Result<(TickState, bool)>
  {
    var grossAfter :- AddDelta(t.liquidityGross, delta);
    var flipped := (grossAfter == 0) != (t.liquidityGross == 0);
    var outside := if t.liquidityGross == 0 && t.tick <= tickCurrent then growthGlobal else t.growthOutside;
    var net :- CheckedI128(if upper then t.liquidityNet - delta else t.liquidityNet + delta);
    Ok((t.(liquidityGross := grossAfter, liquidityNet := net, growthOutside := outside), flipped))
  }

  function CrossChannel(t: TickState, growthGlobal: Five, rewards: Rewards, c: int): Result<nat>
    requires 0 <= c < 5
  {
    if Live(rewards, c) then CheckedSub(growthGlobal[c], t.growthOutside[c]) else Ok(t.growthOutside[c])
  }

  // The source handles the growth channels one by one; so do the three functions that follow, from
  // channel `c` to the last.

  function CrossFrom(t: TickState, growthGlobal: Five, rewards: Rewards, c: nat): (r: Result<seq<nat>>)
    requires c <= 5
    ensures r.Ok? ==> |r.value| == 5 - c
    decreases 5 - c, growthGlobal
  {
    if c == 5 then Ok([])
    else
      var x :- CrossChannel(t, growthGlobal, rewards, c);
      var rest :- CrossFrom(t, growthGlobal, rewards, c + 1);
      Ok([x] + rest)
  }

  /** `TickState::cross`, without the net liquidity it also returns. */
  function CrossTick(t: TickState, growthGlobal: Five, rewards: Rewards): Result<TickState> {
    var outside :- CrossFrom(t, growthGlobal, rewards, 0);
    Ok(t.(growthOutside := outside))
  }

  lemma CrossedOnlyGrowth(t: TickState, growth: Five, rewards: Rewards)
    ensures var r := CrossTick(t, growth, rewards);
            r.Ok? ==> r.value == t.(growthOutside := r.value.growthOutside)
  {}

  lemma {:induction false} CrossIs(t: TickState, growthGlobal: Five, rewards: Rewards, c: nat)
    requires c <= 5
    ensures var r := CrossFrom(t, growthGlobal, rewards, c);
            (r.Ok? ==> forall d :: c <= d < 5 ==> CrossChannel(t, growthGlobal, rewards, d) == Ok(r.value[d - c])) &&
            ((forall d :: c <= d < 5 ==> CrossChannel(t, growthGlobal, rewards, d).Ok?) ==> r.Ok?)
    decreases 5 - c
  {
    if c < 5 { CrossIs(t, growthGlobal, rewards, c + 1); }
  }

  lemma {:induction false} CrossFails(t: TickState, growthGlobal: Five, rewards: Rewards, c: nat, d: nat)
    requires c <= d < 5 && CrossChannel(t, growthGlobal, rewards, d).Err?
    ensures CrossFrom(t, growthGlobal, rewards, c).Err?
    decreases d - c
  {
    if c < d { CrossFails(t, growthGlobal, rewards, c + 1, d); }
  }

  /** `TickState::clear` */
  function ClearTick(t: TickState): TickState {
    t.(liquidityNet := 0, liquidityGross := 0, growthOutside := ZERO_FIVE)
  }

  /** One channel of `get_fee_growth_inside` and `get_reward_growths_inside`. */
  function InsideChannel(lower: TickState, upper: TickState, tickCurrent: int, growthGlobal: Five,
                         rewards: Rewards, c: int): Result<nat>
    requires 0 <= c < 5
  {
    if !Live(rewards, c) then Ok(0)
    else
      var global := growthGlobal[c];
      var below :- if tickCurrent >= lower.tick then Ok(lower.growthOutside[c])
                   else CheckedSub(global, lower.growthOutside[c]);
      var above :- if tickCurrent < upper.tick then Ok(upper.growthOutside[c])
                   else CheckedSub(global, upper.growthOutside[c]);
      Ok(WrappingSub(WrappingSub(global, below), above))
  }

  function InsideFrom(lower: TickState, upper: TickState, tickCurrent: int, growthGlobal: Five,
                      rewards: Rewards, c: nat): (r: Result<seq<nat>>)
    requires c <= 5
    ensures r.Ok? ==> |r.value| == 5 - c
    decreases 5 - c, growthGlobal
  {
    if c == 5 then Ok([])
    else
      var x :- InsideChannel(lower, upper, tickCurrent, growthGlobal, rewards, c);
      var rest :- InsideFrom(lower, upper, tickCurrent, growthGlobal, rewards, c + 1);
      Ok([x] + rest)
  }

  function GrowthInside(lower: TickState, upper: TickState, tickCurrent: int, growthGlobal: Five,
                        rewards: Rewards): Result<Five>
  {
    var inside :- InsideFrom(lower, upper, tickCurrent, growthGlobal, rewards, 0);
    Ok(inside)
  }

  lemma {:induction false} InsideIs(lower: TickState, upper: TickState, tickCurrent: int, growthGlobal: Five,
                                    rewards: Rewards, c: nat)
    requires c <= 5
    ensures var r := InsideFrom(lower, upper, tickCurrent, growthGlobal, rewards, c);
            (r.Ok? ==> forall d :: c <= d < 5 ==>
              InsideChannel(lower, upper, tickCurrent, growthGlobal, rewards, d) == Ok(r.value[d - c])) &&
            ((forall d :: c <= d < 5 ==> InsideChannel(lower, upper, tickCurrent, growthGlobal, rewards, d).Ok?) ==> r.Ok?)
    decreases 5 - c
  {
    if c < 5 { InsideIs(lower, upper, tickCurrent, growthGlobal, rewards, c + 1); }
  }

  lemma GrowthInsideIs(lower: TickState, upper: TickState, tickCurrent: int, growthGlobal: Five, rewards: Rewards, inside: Five)
    requires GrowthInside(lower, upper, tickCurrent, growthGlobal, rewards) == Ok(inside)
    ensures forall c :: 0 <= c < 5 ==> InsideChannel(lower, upper, tickCurrent, growthGlobal, rewards, c) == Ok(inside[c])
  {
    InsideIs(lower, upper, tickCurrent, growthGlobal, rewards, 0);
  }

  // -----------------------------------------------------------------------------------------
  // The growth inside a range as a plain integer, before any wrapping.

  ghost function Below(global: int, outside: int, tickCurrent: int, tick: int): int {
    if tickCurrent >= tick then outside else global - outside
  }

  ghost function RawInside(global: int, outLower: int, outUpper: int, tickCurrent: int, lower: int, upper: int): int {
    global - Below(global, outLower, tickCurrent, lower) - (global - Below(global, outUpper, tickCurrent, upper))
  }

  lemma WrapTwice(x: int, y: int, z: int)
    ensures WrappingSub(WrappingSub(x, y), z) == WrappingSub(x - y, z)
  {
    var q := (x - y) / U128_LIMIT;
    assert WrappingSub(x, y) == (x - y) - q * U128_LIMIT;
  }

  /** The program's wrapped value is the plain one modulo 2^128, and no subtraction in it fails
      while both outside values are at most the global one. */
  lemma InsideIsRaw(lower: TickState, upper: TickState, tickCurrent: int, growthGlobal: Five, rewards: Rewards, c: int)
    requires 0 <= c < 5
    requires lower.growthOutside[c] <= growthGlobal[c] && upper.growthOutside[c] <= growthGlobal[c]
    requires !Live(rewards, c) ==> growthGlobal[c] == 0
    ensures InsideChannel(lower, upper, tickCurrent, growthGlobal, rewards, c)
         == Ok(WrappingSub(RawInside(growthGlobal[c], lower.growthOutside[c], upper.growthOutside[c],
                                     tickCurrent, lower.tick, upper.tick), 0))
  {
    var g, lo, up := growthGlobal[c], lower.growthOutside[c], upper.growthOutside[c];
    var below := Below(g, lo, tickCurrent, lower.tick);
    var above := g - Below(g, up, tickCurrent, upper.tick);
    WrapTwice(g, below, above);
  }

  /** Growth accrues inside exactly the ranges that contain the current tick. */
  lemma InsideAccrues(global: int, delta: int, outLower: int, outUpper: int, tickCurrent: int, lower: int, upper: int)
    requires lower < upper
    ensures RawInside(global + delta, outLower, outUpper, tickCurrent, lower, upper)
         == RawInside(global, outLower, outUpper, tickCurrent, lower, upper)
            + (if lower <= tickCurrent < upper then delta else 0)
  {}

  /** A tick on the far side of which the current tick lands: its outside value is mirrored. */
  ghost function Mirrored(global: int, outside: int, tick: int, crossed: int): int {
    if tick == crossed then global - outside else outside
  }

  /** Crossing a tick and stepping over it changes nothing inside any range, provided no end of
      the range lies elsewhere between the old and the new current tick. */
  lemma InsideSurvivesCrossing(global: int, outLower: int, outUpper: int, from: int, to: int, crossed: int, lower: int, upper: int)
    requires lower != crossed ==> (from >= lower <==> to >= lower)
    requires upper != crossed ==> (from >= upper <==> to >= upper)
    requires from >= crossed <==> to < crossed
    ensures RawInside(global, Mirrored(global, outLower, lower, crossed), Mirrored(global, outUpper, upper, crossed), to, lower, upper)
         == RawInside(global, outLower, outUpper, from, lower, upper)
  {}

  /** What a position has earned per unit of liquidity since `last` was recorded. */
  ghost function Accrued(raw: int, last: int): nat {
    WrappingSub(raw, last)
  }

  lemma AccruedGrows(raw: int, last: int, delta: nat)
    requires Accrued(raw, last) + delta < U128_LIMIT
    ensures Accrued(raw + delta, last) == Accrued(raw, last) + delta
  {}

  lemma AccruedOfWrapped(raw: int, last: int)
    ensures WrappingSub(WrappingSub(raw, 0), last) == Accrued(raw, last)
    ensures Accrued(raw, WrappingSub(raw, 0)) == 0
  {
    WrapTwice(raw, 0, last);
    var q := raw / U128_LIMIT;
    assert raw - WrappingSub(raw, 0) == q * U128_LIMIT;
    assert (q * U128_LIMIT) % U128_LIMIT == 0;
  }
}
