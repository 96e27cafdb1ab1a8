/** The accounts of one pool (programs/amm/src/states). A pool keeps five growth accumulators,
    which the source stores as separate fields: channels 0 and 1 are the fee growths of token 0
    and token 1, channels 2 to 4 the growths of the three rewards. */
module PoolTypes {
  import opened Wrappers
  import opened FullMath

  const MIN_TICK: int := -443636
  const MAX_TICK: int := 443636
  const MIN_SQRT_PRICE: nat := 4295048016
  const MAX_SQRT_PRICE: nat := 79226673521066979257578248091
  const REWARD_NUM: nat := 3

  /** One value per growth channel. */
  type Five = s: seq<nat> | |s| == 5 witness [0, 0, 0, 0, 0]

  /** One value per token. */
  type Two = s: seq<nat> | |s| == 2 witness [0, 0]

  /** Token balances of the two vaults. */
  type Balances = s: seq<int> | |s| == 2 witness [0, 0]

  /** One value per reward. */
  type Three = s: seq<nat> | |s| == 3 witness [0, 0, 0]

  const ZERO_FIVE: Five := [0, 0, 0, 0, 0]

  /** `TickState` */
  datatype TickState = TickState(tick: int, liquidityNet: int, liquidityGross: nat, growthOutside: Five) {
    predicate IsInitialized() {
      liquidityGross != 0
    }
  }

  const DEFAULT_TICK := TickState(0, 0, 0, ZERO_FIVE)

  /** `RewardInfo` without its keys; growth, total and claimed amounts are the pool's channels. */
  datatype RewardInfo = RewardInfo(initialized: bool, openTime: nat, endTime: nat, lastUpdateTime: nat,
                                   emissionsPerSecond: nat)

  type Rewards = s: seq<RewardInfo> | |s| == 3
    witness [RewardInfo(false, 0, 0, 0, 0), RewardInfo(false, 0, 0, 0, 0), RewardInfo(false, 0, 0, 0, 0)]

  /** What the pool's status byte can switch off. */
  datatype Operation = IncreaseOp | DecreaseOp | CollectFeeOp | CollectRewardOp | SwapOp

  const ALL_OPERATIONS := {IncreaseOp, DecreaseOp, CollectFeeOp, CollectRewardOp, SwapOp}

  /** `PoolState`. `total` holds total_fees_token_0/1 and the three reward_total_emissioned,
      `claimed` the matching claimed amounts. */
  datatype PoolState = PoolState(
    tickSpacing: nat,
    liquidity: nat,
    sqrtPrice: nat,
    tickCurrent: int,
    growthGlobal: Five,
    total: Five,
    claimed: Five,
    protocolFees: Two,
    fundFees: Two,
    rewards: Rewards,
    openTime: nat,
    disabled: set<Operation>)

  /** `ProtocolPositionState`: all liquidity of one tick range. */
  datatype ProtocolPosition = ProtocolPosition(
    tickLower: int, tickUpper: int, liquidity: nat, growthInside: Five, feesOwed: Two)

  /** `PersonalPositionState`: one owner's share of the protocol position with index `protocol`
      (the account address that the tick range determines). */
  datatype PersonalPosition = PersonalPosition(protocol: nat, liquidity: nat, growthInside: Five, owed: Five)

  /** `AmmConfig` */
  datatype AmmConfig = AmmConfig(tradeFeeRate: nat, protocolFeeRate: nat, fundFeeRate: nat)

  /** Price at every tick from MIN_TICK to MAX_TICK, the table `get_sqrt_price_at_tick` computes. */
  type PriceTable = seq<nat>

  function PriceAt(table: PriceTable, tick: int): Result<nat> {
    if MIN_TICK <= tick <= MAX_TICK && |table| == MAX_TICK - MIN_TICK + 1 then Ok(table[tick - MIN_TICK])
    else Err(TickOverflow)
  }

  /** What every user of the table relies on. */
  ghost predicate ValidTable(table: PriceTable) {
    && |table| == MAX_TICK - MIN_TICK + 1
    && (forall i, j :: 0 <= i < j < |table| ==> table[i] < table[j])
    && table[0] == MIN_SQRT_PRICE
    && table[MAX_TICK - MIN_TICK] == MAX_SQRT_PRICE
  }

  function Price(table: PriceTable, tick: int): nat
    requires |table| == MAX_TICK - MIN_TICK + 1 && MIN_TICK <= tick <= MAX_TICK
  {
    table[tick - MIN_TICK]
  }

  function TickOf(ticks: map<int, TickState>, tick: int): TickState {
    if tick in ticks then ticks[tick] else DEFAULT_TICK
  }

  /** `x.wrapping_sub(y)` on u128 */
  function WrappingSub(x: int, y: int): (r: nat)
    ensures r < U128_LIMIT
  {
    (x - y) % U128_LIMIT
  }
}
