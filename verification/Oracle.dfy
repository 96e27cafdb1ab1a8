/** The observation ring (programs/amm/src/states/oracle.rs): 1000 slots, overwritten in turn. */
module Oracle {
  import opened Wrappers
  import opened FullMath

  const OBSERVATION_NUM: nat := 1000
  const OBSERVATION_UPDATE_DURATION: nat := 15

  datatype Observation = Observation(blockTimestamp: nat, sqrtPrice: nat, cumulativeTimePrice: nat)

  /** Price times elapsed time, as added to the accumulator. */
  function PriceTime(sqrtPrice: nat, elapsed: nat): nat {
    FloorDiv(sqrtPrice * sqrtPrice, Q64) * elapsed
  }

  /** The only way an observation can fail. */
  predicate Outgrows(sqrtPrice: nat, elapsed: nat) {
    U128_LIMIT <= FloorDiv(sqrtPrice * sqrtPrice, Q64) || U128_LIMIT <= PriceTime(sqrtPrice, elapsed)
  }

  /** Square, shift back, multiply: each with its range test. */
  lemma SquareQuotient(p: nat, elapsed: nat)
    requires p < U128_LIMIT
    ensures var r := MulDivFloor128(p, p, Q64);
            && (r.Err? ==> Outgrows(p, elapsed))
            && (r.Ok? ==> r.value * elapsed == PriceTime(p, elapsed) && (U128_LIMIT <= PriceTime(p, elapsed) <==> Outgrows(p, elapsed)))
  {
    hide FloorDiv;
    MulLe(p, U128_LIMIT - 1, p);
    MulLe(p, U128_LIMIT - 1, U128_LIMIT - 1);
  }

  /** `b` is the observation written after `a`: at least `duration` later, with the accumulator moved on
      by price times elapsed time, modulo 2^128. */
  ghost predicate Chained(a: Observation, b: Observation, duration: nat) {
    && a.blockTimestamp + duration <= b.blockTimestamp
    && b.sqrtPrice != a.sqrtPrice
    && b.cumulativeTimePrice == (a.cumulativeTimePrice + PriceTime(b.sqrtPrice, b.blockTimestamp - a.blockTimestamp)) % U128_LIMIT
  }

  ghost predicate Chain(history: seq<Observation>, duration: nat) {
    forall i :: 0 <= i < |history| - 1 ==> Chained(history[i], history[i + 1], duration)
  }

  /** How many observations the ring still holds. */
  ghost function Retained(history: seq<Observation>): nat { Min(|history|, OBSERVATION_NUM) }

  /** Slot of observation number `i` when the first one went to `start`. */
  function Slot(start: nat, i: nat): (k: nat)
    ensures k < OBSERVATION_NUM
  {
    (start + i) % OBSERVATION_NUM
  }

  /** The ring holds the latest observations, each in its slot. */
  ghost predicate Tracks(ring: seq<Observation>, history: seq<Observation>, start: nat) {
    && |ring| == OBSERVATION_NUM
    && forall i :: 0 <= i < |history| && |history| - OBSERVATION_NUM <= i ==> ring[Slot(start, i)] == history[i]
  }

  /** The slot `back` places before `newest`, around the ring. */
  function Before(newest: nat, back: nat): (k: nat)
    requires newest < OBSERVATION_NUM && back < OBSERVATION_NUM
    ensures k < OBSERVATION_NUM
  {
    (newest + OBSERVATION_NUM - back) % OBSERVATION_NUM
  }

  lemma SlotBefore(start: nat, i: nat, back: nat)
    requires back <= i && back < OBSERVATION_NUM
    ensures Slot(start, i - back) == Before(Slot(start, i), back)
  {}

  lemma SlotsDiffer(start: nat, i: nat, j: nat)
    requires i < j < i + OBSERVATION_NUM
    ensures Slot(start, i) != Slot(start, j)
  {}

  lemma SlotAfter(start: nat, i: nat)
    ensures Slot(start, i + 1) == (if Slot(start, i) == OBSERVATION_NUM - 1 then 0 else Slot(start, i) + 1)
  {}

  /** Walking back from the newest observation to the oldest one retained, and not across the seam
      between the two, every slot chains to the one before it. */
  lemma RetainedAreChained(ring: seq<Observation>, history: seq<Observation>, start: nat, duration: nat, newest: nat, back: nat)
    requires Tracks(ring, history, start) && Chain(history, duration) && history != []
    requires newest == Slot(start, |history| - 1) && back + 1 < Retained(history)
    ensures newest < OBSERVATION_NUM && Chained(ring[Before(newest, back + 1)], ring[Before(newest, back)], duration)
  {
    hide Slot, Before, Chained;
    SlotAfter(start, |history| - 1);
    SlotBefore(start, |history| - 1, back);
    SlotBefore(start, |history| - 1, back + 1);
    var i: nat := |history| - 1 - back;
    assert ring[Slot(start, i)] == history[i] && ring[Slot(start, i - 1)] == history[i - 1];
    assert Chained(history[i - 1], history[i - 1 + 1], duration);
  }

  /** The newest slot is the last observation written. */
  lemma NewestIsLast(ring: seq<Observation>, history: seq<Observation>, start: nat)
    requires Tracks(ring, history, start) && history != []
    ensures ring[Slot(start, |history| - 1)] == history[|history| - 1]
  {
    var i: nat := |history| - 1;
    assert ring[Slot(start, i)] == history[i];
  }

  /** There is no observation yet, or the newest is old enough and of another price. */
  ghost predicate Due(history: seq<Observation>, duration: nat, blockTimestamp: nat, sqrtPrice: nat) {
    history == [] ||
    var newest := history[|history| - 1];
    newest.blockTimestamp + duration <= blockTimestamp && newest.sqrtPrice != sqrtPrice
  }

  /** Exactly one observation of this time and price was added if one was due, and none otherwise. The first one is
      written where the index stands, every other in the next slot around the ring. */
  ghost predicate Observed(before: seq<Observation>, index: nat, after: seq<Observation>, index': nat, duration: nat,
                           blockTimestamp: nat, sqrtPrice: nat)
  {
    if Due(before, duration, blockTimestamp, sqrtPrice) then
      && |after| == |before| + 1 && after[..|before|] == before
      && after[|before|].blockTimestamp == blockTimestamp && after[|before|].sqrtPrice == sqrtPrice
      && (before == [] ==> after[0].cumulativeTimePrice == 0)
      && index' == if before == [] then index else (index + 1) % 1000
    else after == before && index' == index
  }

  class ObservationState {
    var initialized: bool
    var observations: array<Observation>
    const duration: nat
    ghost var history: seq<Observation>
    ghost var start: nat

    ghost predicate Valid()
      reads this, observations
    {
      && observations.Length == OBSERVATION_NUM
      && 0 < duration
      && (initialized <==> history != [])
      && Tracks(observations[..], history, start)
      && Chain(history, duration)
      && forall i :: 0 <= i < |history| ==> history[i].blockTimestamp < U32_LIMIT
    }

    /** Index of the latest observation, which the pool stores. */
    ghost predicate IsNewest(index: nat)
      reads this
    {
      initialized ==> history != [] && index == Slot(start, |history| - 1)
    }

    constructor (duration: nat)
      requires 0 < duration
      ensures Valid() && !initialized && history == [] && fresh(observations) && this.duration == duration
    {
      this.duration := duration;
      initialized := false;
      observations := new Observation[OBSERVATION_NUM](i => Observation(0, 0, 0));
      history, start := [], 0;
    }

    /** Seconds since the latest observation, none if the clock went back. */
    function Elapsed(blockTimestamp: nat, index: nat): nat
      requires index < observations.Length
      reads this, observations
    {
      var last := observations[index].blockTimestamp;
      if last <= blockTimestamp then blockTimestamp - last else 0
    }

    /** An observation is due, and its product of price and time does not fit. */
    ghost predicate Fails(blockTimestamp: nat, sqrtPrice: nat, index: nat)
      requires index < observations.Length
      reads this, observations
    {
      && initialized && Elapsed(blockTimestamp, index) >= duration && sqrtPrice != observations[index].sqrtPrice
      && Outgrows(sqrtPrice, Elapsed(blockTimestamp, index))
    }

    /** `update_check`; the pool keeps the returned index. An observation is skipped when too little time
        has passed since the latest one, or when the price is unchanged. */
    method UpdateCheck(blockTimestamp: nat, sqrtPrice: nat, index: nat) returns (r: Result<Option<nat>>)
      requires Valid() && index < OBSERVATION_NUM && IsNewest(index) && blockTimestamp < U32_LIMIT && sqrtPrice < U128_LIMIT
      modifies `initialized, `history, `start, observations
      ensures Valid() && observations == old(observations)
      ensures r.Err? || r.value.None? ==>
                initialized && history == old(history) && start == old(start) && observations[..] == old(observations[..])
      ensures r.Ok? && r.value.Some? ==> r.value.value < OBSERVATION_NUM && IsNewest(r.value.value) && initialized
      ensures r.Ok? ==> Observed(old(history), index, history, if r.value.Some? then r.value.value else index, duration, blockTimestamp, sqrtPrice)
      ensures r.Ok? ==> (r.value.Some? <==> old(Due(history, duration, blockTimestamp, sqrtPrice)))
      ensures r.Err? <==> old(Fails(blockTimestamp, sqrtPrice, index))
    {
      hide FloorDiv, Slot, MulDivFloor128, PriceTime, Outgrows, Tracks, Chain;
      if !initialized {
        var first := Observation(blockTimestamp, sqrtPrice, 0);
        FirstTracks(observations[..], index, first, duration);
        initialized := true;
        observations[index] := first;
        history, start := [first], index;
        return Ok(Some(index));
      }
      NewestIsLast(observations[..], history, start);
      var last := observations[index];
      var elapsed := Elapsed(blockTimestamp, index);
      if elapsed < duration || sqrtPrice == last.sqrtPrice {
        return Ok(None);
      }
      SquareQuotient(sqrtPrice, elapsed);
      var price :- MulDivFloor128(sqrtPrice, sqrtPrice, Q64);
      var deltaPrice :- Narrow(price * elapsed, U128_LIMIT);
      var next := if index == OBSERVATION_NUM - 1 then 0 else index + 1;
      var written := Observation(blockTimestamp, sqrtPrice, (last.cumulativeTimePrice + deltaPrice) % U128_LIMIT);
      ghost var before := observations[..];
      observations[next] := written;
      SlotAfter(start, |history| - 1);
      SlotAfter(start, |history|);
      AppendKeepsTracking(before, history, start, next, written, duration);
      history := history + [written];
      return Ok(Some(next));
    }

    /** Nothing of an aborted transaction stays. */
    method Restore(ring: seq<Observation>, initialized: bool, ghost history: seq<Observation>, ghost start: nat)
      requires |ring| == observations.Length
      modifies `initialized, `history, `start, observations
      ensures this.initialized == initialized && this.history == history && this.start == start && observations[..] == ring
    {
      this.initialized, this.history, this.start := initialized, history, start;
      forall i | 0 <= i < observations.Length { observations[i] := ring[i]; }
    }
  }

  lemma FirstTracks(ring: seq<Observation>, index: nat, first: Observation, duration: nat)
    requires |ring| == OBSERVATION_NUM && index < OBSERVATION_NUM
    ensures Slot(index, 0) == index && Tracks(ring[index := first], [first], index) && Chain([first], duration)
  {}

  /** Overwriting the oldest slot keeps the ring on the latest observations, also across its end. */
  lemma AppendKeepsTracking(ring: seq<Observation>, history: seq<Observation>, start: nat, next: nat, written: Observation, duration: nat)
    requires Tracks(ring, history, start) && history != [] && Chain(history, duration)
    requires next == if Slot(start, |history| - 1) == OBSERVATION_NUM - 1 then 0 else Slot(start, |history| - 1) + 1
    requires Chained(history[|history| - 1], written, duration)
    ensures next == Slot(start, |history|)
    ensures Tracks(ring[next := written], history + [written], start) && Chain(history + [written], duration)
  {
    hide Slot, Chained;
    SlotAfter(start, |history| - 1);
    SlotAfter(start, |history|);
    var longer := history + [written];
    forall i | 0 <= i < |longer| && |longer| - OBSERVATION_NUM <= i ensures ring[next := written][Slot(start, i)] == longer[i] {
      if i < |history| {
        SlotsDiffer(start, i, |history|);
        assert ring[Slot(start, i)] == history[i];
      }
    }
  }
}
