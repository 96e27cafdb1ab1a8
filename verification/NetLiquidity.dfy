/** The active liquidity as the ticks tell it: the net liquidity of every tick up to the current one. */
module NetLiquidity {
  import opened Wrappers
  import opened PoolTypes
  import opened Ledger
  import opened Sums
  import opened Invariants
  import opened PositionLemmas
  import opened PositionSafety
  import opened RewardAdmin
  import opened Machine

  /** The net liquidity of all ticks from the lowest to `t`. */
  ghost function NetUpTo(ticks: map<int, TickState>, t: int): int
    decreases if t < MIN_TICK then 0 else t - MIN_TICK + 1
  {
    if t < MIN_TICK then 0 else NetUpTo(ticks, t - 1) + TickOf(ticks, t).liquidityNet
  }

  lemma NothingCounted(protocols: seq<ProtocolPosition>, w: Count)
    requires forall j :: 0 <= j < |protocols| ==> Counted(w, protocols[j]) == 0
    ensures Total(protocols, w) == 0
  {
    var terms := Terms(protocols, w);
    SumAddScaled(terms, terms, terms, 1);
  }

  /** Ranges that start at a tick become active there, and those that end at it stop. */
  lemma ActiveStep(l: Ledger, t: int)
    requires ValidRanges(l)
    ensures Total(l.protocols, Active(t)) == Total(l.protocols, Active(t - 1)) + Total(l.protocols, Net(t))
  {
    SumAddScaled(Terms(l.protocols, Active(t - 1)), Terms(l.protocols, Active(t)), Terms(l.protocols, Net(t)), 1);
  }

  /** At any tick at all, what the ticks up to it net to is the liquidity of the ranges around it. */
  lemma {:induction false} NetUpToIsActive(l: Ledger, t: int)
    requires ValidRanges(l) && LiquidityInv(l)
    ensures NetUpTo(l.ticks, t) == Total(l.protocols, Active(t))
    decreases if t < MIN_TICK then 0 else t - MIN_TICK + 1
  {
    if t < MIN_TICK {
      NothingCounted(l.protocols, Active(t));
    } else {
      NetUpToIsActive(l, t - 1);
      ActiveStep(l, t);
      assert TickOf(l.ticks, t).liquidityNet == Total(l.protocols, Net(t));
    }
  }

  /** In every state a run can reach the pool's liquidity is the net liquidity of the ticks up to the current
      one, and all ticks together net to nothing. */
  lemma LiquidityIsNet(l: Ledger)
    requires Reachable(l)
    ensures l.pool.liquidity == NetUpTo(l.ticks, l.pool.tickCurrent)
    ensures NetUpTo(l.ticks, MAX_TICK) == 0
  {
    hide NetUpTo, Total, HoldingsInv, AccrualInv, ClaimsCovered, TimesInv;
    ReachableIsSafe(l);
    NetUpToIsActive(l, l.pool.tickCurrent);
    NetUpToIsActive(l, MAX_TICK);
    NothingCounted(l.protocols, Active(MAX_TICK));
  }
}
