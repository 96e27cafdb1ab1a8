# A verified model of the concentrated-liquidity AMM

This project models the pool program under `programs/amm` and the client's off-chain quote
(`client/src/instructions/utils.rs`) in Dafny 4.11, and proves that the pool stays solvent, that its
figures stay the sums they stand for, that a swap crosses the ticks it should and charges what it should,
and that the bitmap index always answers with the nearest tick array. `dafny verify dfyconfig.toml` checks
everything.

## How it is built

There are two levels, and the arithmetic both rest on.

**Arithmetic.** `FullMath`, `LiquidityMath`, `SqrtPriceMath` and `SwapMath` follow the library files branch by
branch. Unsigned integers are `nat`, and every range test of the source (a checked operation, a narrowing, a
256-bit product) is an explicit error. `StepIsExact` and `StepIsTight` say what a swap step does to the unit.

**The ledger.** `Ledger`, `SwapPath`, `SwapLedger`, `RewardAdmin` and `Machine` describe the pool as one value:
price, tick, liquidity, growth of five channels (two fees, three rewards), ticks as a map, range and personal
positions, vaults, rewards and clock. Every instruction is a function from a state to a new state or an error.
On it stands the invariant of `Invariants`, `Vaults` and `PositionSafety`:

- pool liquidity is the sum over the ranges that contain the current tick, and so the sum of the net liquidity
  of the ticks up to it (`NetLiquidity`); each tick's gross and net are the sums over the ranges that end there;
- owners hold no more than their range, and exactly as much until an increase is given a budget (`History`);
- growth outside never exceeds growth overall, so growth inside telescopes modulo 2^128: over any run it moves by
  exactly what accrued while the current tick was inside (`Earnings`);
- for each channel, everything owed plus everything earned and not yet credited, over all positions and in
  units of 2^-64, is covered by what came in and was not paid out;
- tick and price agree to within the boundary a downward crossing leaves;
- for each token, the vault holds the exact, unrounded worth of every range plus all unclaimed LP fees,
  protocol fees and fund fees.

Each instruction keeps it (`OpenKeepsInv`, `IncreaseKeepsInv`, `DecreaseKeepsInv`, `SwapKeepsInv`, ...), so every
run does (`Machine.ReachableIsSafe`). What follows for a caller is proved separately: the program's guards against
insolvency never fire, withdrawals fail for overflow only, and the vaults can pay everyone at once
(`Withdrawal.VaultsPayEveryone`).

What an instruction does is also said without its code. `SwapRoute` states a swap as a route of steps and the sums over
it, `PositionOutcome`, `DecreaseOutcome`, `RewardOutcome` and `AdminOutcome` state every other effect figure by figure, and
`Outcome.InstructionDoes` puts them together. `SwapSuccess`, `PositionSuccess` and the same `AdminOutcome` state the other side:
what has to fit for an instruction to go through, and that nothing else stops it.

**The accounts.** `Amm` is a class with the accounts as fields: tick arrays of sixty slots, their counts, the pool's
1024-bit bitmap and the extension's 2 x 14 bitmaps, positions, vaults. Its methods perform the instructions in the
source's order, loops included, and are proved against the ledger's functions in both directions: a method that
succeeds did what the ledger does, and one that fails does so where the ledger fails or because an array's bit
cannot be flipped, a swap was not given the arrays it needs, or its observation does not fit. `BigNum`, `ArrayIndex`,
`NearestArray`, `TickIndex` and `TickSearch` carry the index below it: word-array shifts and zero counts, the
three-level search, and the coherence of bits, counts and ticks.

Beside these stand `TickMath` (the nineteen-factor price function is strictly monotone, so the table all
other theorems take as a parameter exists), `Logarithms` and `TickAtPrice` (the program's logarithm always finds
the tick of a price, so the inverse the ledger uses is the program's), `Quote` (the client agrees with the program),
`RoundTrips`, `Oracle` (the observation ring), and `Instances` and `ThreeArrays` (concrete pools for the properties
that fail).

Time and prices outside the pool do not exist in the model: the clock is a field that waiting moves on, token
transfers add to or subtract from vault balances, and the accounts passed to an instruction are parameters.

## Where the code is not what one would expect

The model follows the code. These are the cases where a natural statement fails, with what holds instead.

- With `liquidity == 0` and a base flag, `add_liquidity` works the liquidity out in a local that never reaches the
  personal position (programs/amm/src/instructions/open_position.rs:606, programs/amm/src/instructions/increase_liquidity.rs:299).
  Owners' liquidity equals the range's exactly until an increase of that kind goes through: `History.StepFullyOwned`
  for one instruction, `History.RunFullyOwned` for any run, `History.RunSpare` for the amount, and
  `Instances.BudgetLeavesUnowned` for an input.
- From tick spacing 15 on, `tick_range` ends at the first tick, but the array holding that tick starts below it and
  is routed to the extension, which refuses it (programs/amm/src/states/pool.rs:586-597,
  programs/amm/src/states/tickarray_bitmap_extension.rs:80-89). `TickIndex.FlipToggles` gives the exact condition and
  `TickIndex.RefusedExample` an instance. No mint to such an array goes through, and no swap while the current tick
  lies in it (`Amm.Amm.Transact`); no wrong state is committed, and by the index invariant no such array is ever marked,
  so burns are never stuck on it.
- `reward_total_emissioned` adds up ceilings and running rewards are topped up with floors, so it may exceed what was
  deposited (`Instances.EmissionAboveFunding`). `RewardAdmin.UpdatingInBetweenExactly` says when an update in between
  costs a unit, and `RewardAdmin.FundingFollowsSchedule` bounds the other effect; a reward vault that is short pays
  what it has and leaves the rest owed.
- `to_underflow_u64` turns amounts of u64::MAX or more into 0. For a credit no amount above u64::MAX arises, and
  exactly that one credits nothing (`Withdrawal.CreditNeverFails`).
- A swap cuts the clock to 32 bits (programs/amm/src/states/oracle.rs:118-120). Once a reward that has opened by the
  cut clock was updated past it, and the pool has liquidity, every swap fails; otherwise none fails for that reason
  (`SwapOutcome.SwapFailsOnlyBy`, `SwapOutcome.ClockFits`, `Instances.ClockWrapsBehindReward`). The invariant survives
  any clock.
- The client's loop asks the bitmaps for the array after the swap's first one at every change of arrays, because the
  start index it should advance is shadowed inside the loop (client/src/instructions/utils.rs:427-438). Given the first two
  arrays it returns a quote exactly when the quote needs at most one change of arrays (`Quote.SwapCompute`), and so errs on swaps that go
  through (`ThreeArrays.SwapWithoutQuote`). The quote itself is right (`Quote.QuoteIsPaid`).

## Model

| member | source | states |
|---|---|---|
| `FullMath.MulDivFloorIs` | programs/amm/src/libraries/full_math.rs:109-177 | when it returns, the floor of val*num/denom; when it fails, because the denominator is zero or a range test does not hold |
| `FullMath.MulDivCeilIs` | programs/amm/src/libraries/full_math.rs:119-187 | when it returns, the ceiling of val*num/denom; the only failures are a zero denominator and an overflow |
| `FullMath.MulDivFloorFits` | programs/amm/src/libraries/full_math.rs:109-177 | it returns if and only if the denominator is positive, the product fits the wide range and the quotient the narrow one |
| `FullMath.MulDivCeilFits` | programs/amm/src/libraries/full_math.rs:119-187 | it returns if and only if the denominator is positive, the product with its rounding term fits the wide range and the rounded-up quotient the narrow one |
| `FullMath.ToUnderflowU64` | programs/amm/src/libraries/full_math.rs:189-195 | every value below u64::MAX is kept, u64::MAX itself and everything above become 0 |
| `FullMath.DivRoundingUpIs` | programs/amm/src/libraries/unsafe_math.rs:14-28 | quotient plus a carry is the ceiling |
| `LiquidityMath.AddDelta` | programs/amm/src/libraries/liquidity_math.rs:17-28 | x + y, within u128; an error exactly when the sum leaves that range or y is the smallest i128 |
| `LiquidityMath.Amount0IsOneRounding` | programs/amm/src/libraries/liquidity_math.rs:166-197 | the two nested roundings of token 0 amount to a single floor or ceiling of L*2^64*(b-a)/(b*a) |
| `LiquidityMath.Amount1IsOneRounding` | programs/amm/src/libraries/liquidity_math.rs:201-225 | token 1 amounts are one floor or ceiling of L*(b-a)/2^64 |
| `SwapMath.ComputeSwapStep` | programs/amm/src/libraries/swap_math.rs:17-157 | the field-by-field computation of the step equals the function the step theorems are about, errors included |
| `SwapMath.StepIsExact` | programs/amm/src/libraries/swap_math.rs:17-157 | all four modes: the price ends between current and target; input is the exact rounded-up cost of the move and output its rounded-down release; fee*(D-rate) >= input*rate; no more than the remaining amount is used, and all of it when the target is missed; the only failure is an overflow, never a subtraction or a zero denominator |
| `SwapMath.StepIsTight` | programs/amm/src/libraries/swap_math.rs:37-154 | a step that misses its target moves exactly as far as its amount demands: one price unit further would cost more than the amount after the fee, one unit less would release too little; and what the fee is, to the unit |
| `SwapMath.InputStopsShort` | programs/amm/src/libraries/sqrt_price_math.rs:107-122 | an input below the full cost stops strictly short of the target where it still covers the rounded-up cost |
| `SwapMath.OutputStopsInRange` | programs/amm/src/libraries/sqrt_price_math.rs:128-147 | an output below the full release never passes the target and is released in full; the denominator stays positive |
| `SwapValue.NoFreeValue` | programs/amm/src/libraries/swap_math.rs:92-136 | no free value: out*2^128 <= in*P*Q going down, and out*P*Q <= in*2^128 going up |
| `SwapValue.RoundTripNeverGains` | programs/amm/src/libraries/swap_math.rs:17-157 | two steps of the program at one liquidity, there and back with at most the output of the first: never returns more than was paid, and the price does not pass its start |
| `SwapValue.ZeroLiquidityStepIsFree` | programs/amm/src/libraries/swap_math.rs:17-157 | a step without liquidity jumps to its target and takes, gives and charges nothing |
| `SwapValue.ZeroLiquidityStepSucceeds` | programs/amm/src/libraries/swap_math.rs:17-157 | and within the widths of prices and amounts such a step never fails |
| `RoundTrips.BudgetIsKept` | programs/amm/src/instructions/open_position.rs:613-629 | with tick and price in agreement, a single-token budget buys the largest liquidity it pays for at the current price moved into the range, none if the range lies on the other side, and minting it charges at most the budget |
| `RoundTrips.BudgetBuysMost` | programs/amm/src/libraries/liquidity_math.rs:115-158 | for every price and both tokens: L*(high-y) <= budget*floor(y*high/2^64) < (L+1)*(high-y) for token 0 and L*(y-low) <= budget*2^64 < (L+1)*(y-low) for token 1, where y is the price moved into the range |
| `RoundTrips.BudgetIsSpent` | programs/amm/src/libraries/liquidity_math.rs:32-76 | that liquidity is the largest one: one more unit would not fit the budget's price product |
| `RoundTrips.MintThenBurn` | programs/amm/src/libraries/liquidity_math.rs:277-311 | minting and burning the same liquidity at one price returns at most the deposit and at most one unit less per token, for every position of the price relative to the range |
| `RoundTrips.BurnInPieces` | programs/amm/src/libraries/liquidity_math.rs:277-311 | burning in two pieces pays at most what one burn pays, and at most one unit less per token |
| `TickGrowth.CrossIs` | programs/amm/src/states/tick_array.rs:370-395 | crossing replaces outside by global minus outside in the five growth channels, rewards only where initialized |
| `TickGrowth.GrowthInsideIs` | programs/amm/src/states/tick_array.rs:419-516 | the growth inside for fees and rewards, channel by channel, as the two source functions compute it |
| `TickGrowth.InsideIsRaw` | programs/amm/src/states/tick_array.rs:419-467 | with outside <= global the checked subtractions cannot fail and the result is the unbounded growth inside, modulo 2^128 |
| `TickGrowth.InsideAccrues` | programs/amm/src/states/tick_array.rs:419-467 | telescoping: growth inside rises by exactly the global growth when the current tick is in the range, and by nothing otherwise |
| `TickGrowth.InsideSurvivesCrossing` | programs/amm/src/states/tick_array.rs:370-395 | telescoping: crossing a tick together with the move of the current tick leaves the growth inside of every range unchanged |
| `PositionLemmas.MovedKeepsEarnings` | programs/amm/src/instructions/open_position.rs:820-894 | telescoping: a mint or burn, also one that initializes or clears a tick, leaves the growth earned by every position that has liquidity unchanged in all five channels |
| `Earnings.TurnAccrues` | programs/amm/src/instructions/swap.rs:394-457 | telescoping: over one turn of a swap the growth inside a live range moves by the turn's growth if the turn starts inside it, and by nothing otherwise, the crossing included |
| `Earnings.LoopAccrues` | programs/amm/src/instructions/swap.rs:225-485 | over the whole loop it moves by exactly the sum over the turns that start with lower <= tick < upper |
| `Earnings.StepAccrues` | programs/amm/src/lib.rs:76-634 | over any instruction, in all five channels, it moves by exactly what accrued while the current tick was inside |
| `Earnings.RunAccrues` | programs/amm/src/lib.rs:76-634 | and so over every run through which the range has liquidity |
| `Earnings.ReportsTelescope` | programs/amm/src/states/tick_array.rs:419-516 | what the program's two growth-inside functions report before and after such a run differs, in wrapping u128 arithmetic, by exactly that sum |
| `Accounts.UpdateRewardInfosInPlace` | programs/amm/src/states/pool.rs:341-414 | the loop over the reward slots equals the ledger's reward update |
| `Accounts.UpdateTickInPlace` | programs/amm/src/states/tick_array.rs:330-366 | the in-place tick update equals the ledger's: gross, net by side, first use of the growth outside, and the flip flag |
| `Accounts.CrossTickInPlace` | programs/amm/src/states/tick_array.rs:370-395 | the in-place crossing, loop included, equals the ledger's |
| `Accounts.UpdateProtocolInPlace` | programs/amm/src/states/protocol_position.rs:53-113 | the field-by-field update of a range's account equals the ledger's |
| `Accounts.CreditInPlace` | programs/amm/src/states/personal_position.rs:48-81 | the loop crediting fees and rewards to a position equals the ledger's credit |
| `Accounts.ModifyPositionInPlace` | programs/amm/src/instructions/open_position.rs:781-894 | modify_position and update_position in the source's order equal the ledger's change of liquidity |
| `Accounts.NormalUpdateInPlace` | programs/amm/src/instructions/set_reward_params.rs:124-194 | the owner's in-place change of a reward equals the ledger's |
| `Accounts.AdminUpdateInPlace` | programs/amm/src/instructions/set_reward_params.rs:196-253 | the operator's in-place change of a reward equals the ledger's |
| `PositionLemmas.ModifyMoves` | programs/amm/src/instructions/open_position.rs:820-894 | a successful change by delta moves exactly that liquidity in the range, its two ticks and, when in range, the pool |
| `PositionLemmas.MovedKeepsTotals` | programs/amm/src/instructions/open_position.rs:820-894 | active liquidity, tick gross and tick net stay the sums over all ranges that they stand for |
| `NetLiquidity.NetUpToIsActive` | programs/amm/src/states/tick_array.rs:330-366 | at any tick, the net liquidity of all ticks up to it is the liquidity of the ranges around it |
| `NetLiquidity.LiquidityIsNet` | programs/amm/src/instructions/swap.rs:413-457 | in every reachable state pool.liquidity is the sum of liquidity_net over the ticks <= tick_current, and over all ticks the sum is 0 |
| `PositionLemmas.MovedKeepsClaims` | programs/amm/src/instructions/open_position.rs:820-894 | the sum of all claims on fees and rewards stays within what was taken in and not paid out |
| `ClaimLemmas.AccrueKeepsClaimsCovered` | programs/amm/src/instructions/swap.rs:394-411 | growth that costs no more than the income added keeps every channel solvent, over all positions |
| `ClaimLemmas.CreditKeepsClaims` | programs/amm/src/instructions/increase_liquidity.rs:276-301 | crediting a position and giving it any new liquidity keeps every channel solvent |
| `ClaimLemmas.OwedIsCovered` | programs/amm/src/instructions/decrease_liquidity.rs:461-487 | what one position is owed never exceeds what the pool still has unclaimed |
| `ClaimLemmas.ClaimKeepsClaims` | programs/amm/src/instructions/decrease_liquidity.rs:461-487 | paying a claim keeps every channel solvent |
| `Vaults.AmountsCoverBacking` | programs/amm/src/libraries/liquidity_math.rs:277-311 | the signed amounts never fall short of the exact curve: a mint pays at least, and a burn takes at most, the change of the range's exact backing in each token |
| `Vaults.TickTellsPrice` | programs/amm/src/instructions/swap.rs:413-457 | tick and price on the same side of every tick boundary, up to a shared end point |
| `Vaults.BackingShifts` | programs/amm/src/instructions/swap.rs:225-485 | moving the price across no initialized tick shifts the exact backing of all ranges together by that of the active liquidity |
| `PositionSafety.MintKeepsInv` | programs/amm/src/instructions/open_position.rs:603-779 | a mint keeps the whole invariant: liquidity sums, growth, claims, tick and price, vault solvency |
| `PositionSafety.IncreaseKeepsInv` | programs/amm/src/instructions/increase_liquidity.rs:229-311 | so does increase_liquidity, also with a budget instead of a liquidity, where the owner is credited with none |
| `History.StepSpare` | programs/amm/src/instructions/increase_liquidity.rs:229-311 | what a range holds beyond its owners grows by exactly the liquidity an increase mints for a budget, and is left alone by every other instruction |
| `History.StepFullyOwned` | programs/amm/src/instructions/increase_liquidity.rs:276-301 | where owners hold all of every range, they still do after an instruction if and only if it is not an increase with liquidity 0 |
| `History.RunSpare` | programs/amm/src/lib.rs:76-634 | over any run the owners' shortfall in a range grows by exactly what was minted for budgets |
| `History.RunFullyOwned` | programs/amm/src/lib.rs:76-634 | from a state in which owners hold all of every range, they do at the end of a run if and only if no successful increase of it had liquidity 0 |
| `History.ReachedFullyOwned` | programs/amm/src/lib.rs:76-634 | and so for every run from a new pool |
| `Instances.BudgetLeavesUnowned` | programs/amm/src/instructions/open_position.rs:603-629 | a run of two instructions on a new pool, with the program's own prices, after which owners do not hold all of their range |
| `PositionSafety.RewardStepAccrues` | programs/amm/src/states/pool.rs:341-414 | a reward update pays for its growth: liquidity*growth <= 2^64*emission |
| `PositionSafety.WithRewardsKeepsInv` | programs/amm/src/states/pool.rs:341-414 | bringing all rewards up to date keeps the whole invariant |
| `OpenSafety.OpenKeepsInv` | programs/amm/src/instructions/open_position.rs:429-600 | open_position keeps the whole invariant, whether or not the range exists already and with or without liquidity |
| `DecreaseSafety.BurntHolds` | programs/amm/src/instructions/decrease_liquidity.rs:415-459 | after a burn the vaults hold the exact backing of what is left and the amounts about to be paid |
| `DecreaseSafety.FeesAreCollectable` | programs/amm/src/instructions/decrease_liquidity.rs:461-487 | the guard on unclaimed fees never fires: both owed fees are paid in full |
| `DecreaseSafety.PayOutSucceeds` | programs/amm/src/instructions/decrease_liquidity.rs:361-379 | the two transfers out never fail, and leave the invariant intact |
| `DecreaseSafety.RewardsAreCollectable` | programs/amm/src/instructions/decrease_liquidity.rs:572-658 | collect_rewards never fails: check_unclaimed_reward and the claimed totals never stop it |
| `DecreaseSafety.CheckUnclaimedFeesSucceeds` | programs/amm/src/instructions/decrease_liquidity.rs:679-704 | the check of fees against vaults never fails and keeps the invariant, whether or not it switches collection off |
| `DecreaseSafety.DecreaseAfterBurn` | programs/amm/src/instructions/decrease_liquidity.rs:248-413 | once the burn went through, decrease_liquidity succeeds if and only if the caller's minimum amounts are met and burnt amount plus fee fit u64, and then both leave the vaults |
| `DecreaseSafety.DecreaseKeepsInv` | programs/amm/src/instructions/decrease_liquidity.rs:248-413 | decrease_liquidity keeps the whole invariant |
| `DecreaseSafety.CollectProtocolFeeSucceeds` | programs/amm/src/instructions/admin/collect_protocol_fee.rs:68-125 | withdrawing protocol fees always succeeds, never touches what the positions are backed by, and keeps the invariant |
| `DecreaseSafety.CollectFundFeeSucceeds` | programs/amm/src/instructions/admin/collect_fund_fee.rs:65-115 | the same for fund fees |
| `Withdrawal.CreditNeverFails` | programs/amm/src/instructions/increase_liquidity.rs:313-327 | crediting a position never fails; each channel earns at most u64::MAX, and adds floor(L*growth/2^64) to what is owed, except that an amount of exactly u64::MAX adds nothing |
| `Withdrawal.BurnAndCreditOnlyOverflows` | programs/amm/src/instructions/decrease_liquidity.rs:415-459 | an owner can burn and be credited any part of a position; the only possible failure is an overflow, never a subtraction or a missing tick |
| `Withdrawal.VaultsPayEveryone` | programs/amm/src/instructions/decrease_liquidity.rs:415-570 | vault solvency: the floor-rounded payouts of burning every position in full, plus all unclaimed LP fees, protocol fees and fund fees, are within the vault, for each token |
| `SwapPath.NextTickIs` | programs/amm/src/states/tick_array.rs:187-242 | the nearest initialized tick in the swap's direction, with the direction's inclusive or exclusive end |
| `SwapPath.TickAtSqrtPriceIs` | programs/amm/src/libraries/tick_math.rs:123-127 | the documented inverse of the price table: the unique tick with price(t) <= P < price(t+1), an error exactly outside the price range |
| `SwapPath.HopIsGood` | programs/amm/src/instructions/swap.rs:299-345 | the order checks before a step always pass; a turn heads for the nearest initialized tick, no further than the limit, and fails only for an overflow or for want of a tick |
| `SwapPath.HopArrivesOrEnds` | programs/amm/src/instructions/swap.rs:225-485 | a turn that does not arrive at its tick ends the swap, with nothing remaining or at the limit; the price moves one way and never past its target |
| `SwapPath.HopStaysOnPath` | programs/amm/src/instructions/swap.rs:413-457 | price(tick) <= P <= price(tick+1) and the limit are kept by every turn, also by the step to tick - 1 after a downward crossing; a crossing strictly moves the tick |
| `SwapLedger.SwapOnceProgresses` | programs/amm/src/instructions/swap.rs:225-485 | every turn brings the loop strictly closer to its end |
| `SwapSafety.TakeSplits` | programs/amm/src/instructions/swap.rs:370-411 | protocol and fund shares never exceed the step's fee; the fee is split without loss and the growth it buys is paid for |
| `SwapSafety.TakeIsExact` | programs/amm/src/instructions/swap.rs:370-411 | each share is the rounded-down fraction of the step's fee, and the growth the rounded-down rest per unit of liquidity |
| `SwapSafety.CrossMirrors` | programs/amm/src/instructions/swap.rs:414-437 | a crossing changes only the growth outside of its tick, mirrored against the growth so far |
| `SwapSafety.TickMovedKeepsTotals` | programs/amm/src/instructions/swap.rs:413-457 | liquidity after the crossing is the sum over the ranges that contain the new tick |
| `SwapSafety.TickMovedKeepsGrowth` | programs/amm/src/instructions/swap.rs:413-457 | growth inside every live range is the same before and after the crossing, in all five channels |
| `SwapSafety.PriceMoveKeepsVaults` | programs/amm/src/instructions/swap.rs:334-368 | a step's rounded amounts keep the vaults above the exact backing of all ranges |
| `SwapSafety.LoopKeepsTrade` | programs/amm/src/instructions/swap.rs:225-485 | the whole loop keeps the invariant, fees and growth of the turns so far included |
| `SwapSafety.SwapKeepsInv` | programs/amm/src/instructions/swap.rs:141-811 | a swap keeps the whole invariant |
| `SwapOutcome.TurnCrossesNearestTick` | programs/amm/src/instructions/swap.rs:225-485 | every turn but the last crosses exactly the nearest initialized tick: that tick and no other leaves the ticks ahead, all other ticks are untouched, the price is the tick's |
| `SwapOutcome.TurnsAreBounded` | programs/amm/src/instructions/swap.rs:225-485 | the loop takes at most one turn more than there are initialized ticks ahead |
| `SwapOutcome.LoopConservesInput` | programs/amm/src/instructions/swap.rs:334-411 | over a whole swap: total input = curve input + LP fee + protocol fee + fund fee, also across segments without liquidity, and all fees together are at least the rate's share |
| `SwapOutcome.CrossingNeverUnderflows` | programs/amm/src/instructions/swap.rs:440-443 | adding the net liquidity of a crossed tick never takes the liquidity below zero |
| `SwapOutcome.LoopFailsOnlyBy` | programs/amm/src/instructions/swap.rs:225-485 | the loop fails only for an overflow or for want of an initialized tick |
| `SwapOutcome.SwapFailsOnlyBy` | programs/amm/src/instructions/swap.rs:141-811 | in every state of the invariant a swap fails only for its arguments, a closed or disabled pool, too little liquidity or an overflow, no underflow and no vault short; unless a reward has run past the 32 bits the swap keeps of the clock, and then it always fails |
| `SwapOutcome.ClockFits` | programs/amm/src/states/oracle.rs:116-120 | no reward is behind such a clock as long as the full clock fits 32 bits |
| `Instances.ClockWrapsBehindReward` | programs/amm/src/states/oracle.rs:116-120 | a run of four instructions on a new pool to a reward updated up to second 2^32 - 1: seven seconds later every swap fails, whatever its arguments |
| `Quote.QuoteNextTick` | client/src/instructions/utils.rs:405-449 | the client's search returns the nearest initialized tick of the pool; in the first array, with the next one queued, it errs only if there is none, and after a change of arrays if and only if its array holds no tick ahead |
| `Quote.QuoteTurn` | client/src/instructions/utils.rs:450-518 | one turn of the client's loop, errors included |
| `Quote.SwapCompute` | client/src/instructions/utils.rs:310-524 | on tick arrays queued in swap order: what the client returns is the quote on the pool's ticks; given the first two arrays, it returns if and only if there is a quote and the quote meets its ticks with at most one change of arrays |
| `ThreeArrays.SwapWithoutQuote` | client/src/instructions/utils.rs:427-447 | a pool reached by two instructions, with ticks in three arrays: a swap goes through and there is a quote, but it needs two changes of arrays, so the client errs whatever arrays it is given |
| `Quote.QuoteFollowsSwap` | client/src/instructions/utils.rs:341-524 | on the stops of the swap's loop: the quote stops at the first one whose tick is an extreme tick, or else at the last one, and errs if and only if that takes more than eleven turns |
| `Quote.QuoteIsStop` | client/src/instructions/utils.rs:341-524 | so for every successful swap the quote is what the swap had computed at that stop |
| `Quote.QuoteIsPaid` | client/src/instructions/utils.rs:341-524 | a successful swap that starts and ends strictly between the extreme ticks: in eleven turns or fewer the quote is to the unit what the vault of the other token changes by, and with more turns the quote errs; nothing is assumed of the quote |
| `SwapRoute.TurnLeads` | programs/amm/src/instructions/swap.rs:225-457 | a turn of the loop heads for the initialized tick closest in its direction, stops there, at the limit, or exactly where the amount runs out, and changes amounts, tick and liquidity as that step says; later turns see the same ticks |
| `SwapRoute.LoopIsRoute` | programs/amm/src/instructions/swap.rs:225-485 | the loop walks a route of such steps that ends with nothing remaining or at the limit, and its fee tallies are the sums over the steps: floor(fee*rate/10^6) for protocol and fund each, the rest and its growth on steps with liquidity |
| `SwapRoute.SwapIsRoute` | programs/amm/src/instructions/swap.rs:141-811 | every successful swap, as a whole: what allowed it, the route, both vault changes, the threshold met, protocol fees, fund fees, total fees and growth of the input token up by those sums, the other token's untouched, rewards brought up to date, price, tick and liquidity those of the route's end, all operations frozen exactly when the payment empties a vault, and nothing else changed |
| `SwapSuccess.AmountsFit` | programs/amm/src/libraries/liquidity_math.rs:166-225 | input and output of a move can be worked out if and only if three, or one, products fit their widths |
| `SwapSuccess.StepGoesThrough` | programs/amm/src/libraries/swap_math.rs:17-157 | a step whose whole way to the target fits goes through, wherever on the way it stops |
| `SwapSuccess.LoopGetsStuck` | programs/amm/src/instructions/swap.rs:225-485 | a loop that fails has walked a route to a stop where no initialized tick is ahead, or a figure on the way to the next one outgrows its integer |
| `SwapSuccess.SwapMeetsObstacle` | programs/amm/src/instructions/swap.rs:141-811 | and a swap that fails was not allowed, met a reward that cannot be brought up to date, or walked a route that is stuck or cannot be settled: nothing traded, threshold missed, or a fee figure above 64 bits |
| `RewardOutcome.InfosUpdate` | programs/amm/src/states/pool.rs:341-414 | each reward that runs emits ceil(e*t/2^64) and grows by floor(e*t/liquidity) for the time t of its period since its last update, if there is liquidity, and its last update moves to min(now, end); no other figure of the pool changes |
| `RewardOutcome.InfosFit` | programs/amm/src/states/pool.rs:341-414 | and it succeeds if and only if no reward has run past the time given, every growth stays a u128 and every emission a u64 |
| `RewardOutcome.RewardsArePaid` | programs/amm/src/instructions/decrease_liquidity.rs:572-658 | for each reward up to the first one not set up, min(owed, vault) leaves the vault and the owed figure and counts as claimed; nothing else moves |
| `RewardOutcome.CheckIs` | programs/amm/src/instructions/decrease_liquidity.rs:679-704 | fee collection is switched off if and only if some token's unclaimed fees are at least its vault, and the vault is not empty |
| `RewardAdmin.UpdateKeepsTimes` | programs/amm/src/states/pool.rs:341-414 | open <= last update <= end is kept, and at the current time the subtraction of times never fails |
| `RewardAdmin.InfosFailOnlyBy` | programs/amm/src/states/pool.rs:341-414 | bringing rewards up to date fails when one has run past the time given, and else for an overflow only |
| `RewardAdmin.ChangeKeepsTimes` | programs/amm/src/instructions/set_reward_params.rs:124-253 | both ways of changing a reward keep its times; the only subtraction that can fail is the owner asking for an earlier end |
| `RewardAdmin.SetRewardParamsKeepsTimes` | programs/amm/src/instructions/set_reward_params.rs:41-122 | the same for the whole instruction, with the update before it |
| `RewardAdmin.UpdatingInBetween` | programs/amm/src/states/pool.rs:341-414 | an extra update in between counts the same time, takes at most one unit off the growth and adds at most one to the emission |
| `RewardAdmin.UpdatingInBetweenExactly` | programs/amm/src/states/pool.rs:341-414 | when exactly each unit is lost or added, in terms of the two remainders by the liquidity and by 2^64 |
| `Instances.EmissionAboveFunding` | programs/amm/src/instructions/initialize_reward.rs:76-155 | a reward funded with one token that has emitted two after two updates, where one update would have emitted one |
| `RewardAdmin.FundingFollowsSchedule` | programs/amm/src/instructions/set_reward_params.rs:124-253 | a restarted reward is funded in full; a change of a running one covers the added schedule to within two units, and exactly bounds it from below when neither rate nor end is lowered |
| `RewardAdmin.SetRewardParamsKeepsInv` | programs/amm/src/instructions/set_reward_params.rs:41-122 | changing a reward keeps the whole invariant |
| `RewardAdmin.InitializeRewardKeepsInv` | programs/amm/src/states/pool.rs:268-337 | so does initializing one |
| `RewardAdmin.CollectRemainingKeepsInv` | programs/amm/src/instructions/collect_remaining_rewards.rs:43-104 | so does withdrawing an ended reward's surplus |
| `Machine.CreatedPoolInv` | programs/amm/src/instructions/create_pool.rs:107-159 | a new pool satisfies the whole invariant |
| `Machine.InstructionKeepsInv` | programs/amm/src/lib.rs:76-634 | each of the fourteen instructions keeps it |
| `Machine.RunKeepsInv` | programs/amm/src/lib.rs:76-634 | so does every run: any sequence of instructions and waiting times, failed instructions changing nothing |
| `Machine.ReachableIsSafe` | programs/amm/src/lib.rs:76-634 | every reachable state satisfies it: liquidity sums, growth bounds, reward and fee solvency, tick and price, vault solvency, reward times |
| `PositionOutcome.ModifiedIs` | programs/amm/src/instructions/open_position.rs:781-894 | a change of liquidity: rewards up to date, delta at the range, its two ticks and the active liquidity, a tick's first growth outside, a cleared tick, the growth recorded for the range and its own fee tallies; all other ticks and ranges stand |
| `PositionOutcome.IncreaseIs` | programs/amm/src/instructions/increase_liquidity.rs:229-311 | a successful increase: the liquidity asked for or the most the budget buys is minted, both vaults take in its worth at the price, rounded up and within the maxima, and the owner is credited floor(L*growth/2^64) in each channel and gets the liquidity asked for |
| `PositionOutcome.OpenIs` | programs/amm/src/instructions/open_position.rs:429-600 | a successful opening: the range's account is the one there is or a new one, the mint as above, and a new owner who is owed nothing and starts from the growth inside the range |
| `DecreaseOutcome.DecreaseIs` | programs/amm/src/instructions/decrease_liquidity.rs:248-413 | a successful decrease: what was allowed, burnt, credited, paid, claimed, switched off and collected, figure by figure, with nothing else changed |
| `DecreaseOutcome.DecreasePays` | programs/amm/src/instructions/decrease_liquidity.rs:347-379 | each vault falls by the floor of the burnt liquidity's worth at the price, plus what was owed, plus what was earned since, and nothing of it stays owed; a term is 0 where its operation is switched off |
| `PositionSuccess.ModifyGoesThrough` | programs/amm/src/instructions/open_position.rs:781-894 | a change of liquidity goes through, and moves exactly those amounts, whenever each figure it touches fits its integer |
| `PositionSuccess.IncreaseGoesThrough` | programs/amm/src/instructions/increase_liquidity.rs:229-311 | so an increase that is allowed and within its maxima goes through if its figures fit |
| `PositionSuccess.OpenGoesThrough` | programs/amm/src/instructions/open_position.rs:429-600 | and an opening at two multiples of the tick spacing |
| `PositionSuccess.DecreaseGoesThrough` | programs/amm/src/instructions/decrease_liquidity.rs:248-413 | and a decrease that frees its minima, if both payments are u64 figures |
| `AdminOutcome.CollectProtocolFeeDoes` | programs/amm/src/instructions/admin/collect_protocol_fee.rs:68-125 | min(requested, set aside) of each token leaves vault and figure, always |
| `AdminOutcome.CollectFundFeeDoes` | programs/amm/src/instructions/admin/collect_fund_fee.rs:65-115 | the same for the fund |
| `AdminOutcome.InitializeRewardDoes` | programs/amm/src/instructions/initialize_reward.rs:76-155 | succeeds if and only if the times, the rate and the period of 7 to 90 days are right, a slot is free and the emission, rounded up, is a u64; then the lowest free slot holds the reward and its vault the emission |
| `AdminOutcome.SetRewardParamsDoes` | programs/amm/src/instructions/set_reward_params.rs:41-253 | succeeds if and only if the caller may change the updated reward; then the new times, rate and cost are those of a restart, or of a running reward's change: floor of the excess rate for the time left plus floor of the new rate for the extension |
| `AdminOutcome.CollectRemainingDoes` | programs/amm/src/instructions/collect_remaining_rewards.rs:43-104 | succeeds if and only if the reward has ended and its vault holds what is unclaimed; then exactly that stays in the vault |
| `AdminOutcome.WithConfigDoes` | programs/amm/src/instructions/admin/update_amm_config.rs:45-60 | a trade fee below the whole and shares of at most the whole, exactly |
| `AdminOutcome.CreatePoolDoes` | programs/amm/src/instructions/create_pool.rs:107-159 | succeeds if and only if the price is in range; then the tick is the one whose price is at most it, and everything else is empty |
| `Outcome.InstructionDoes` | programs/amm/src/lib.rs:76-634 | every instruction that goes through has exactly its stated effect on all figures of the pool |
| `Outcome.ReachableRangesDiffer` | programs/amm/src/instructions/open_position.rs:100-113 | in every reachable state a range of ticks has one account, as if it had its own address |
| `BigNum.Shl` | programs/amm/src/libraries/big_num.rs:275-303 | shifting a word array left multiplies its value by 2^k modulo 2^(64n), for any number of words and any k |
| `BigNum.Shr` | programs/amm/src/libraries/big_num.rs:305-335 | shifting right divides it by 2^k, for any k |
| `BigNum.BitXor` | programs/amm/src/libraries/big_num.rs:247-258 | xor of two word arrays is xor of every bit of their values |
| `BigNum.FlipBit` | programs/amm/src/states/tickarray_bitmap_extension.rs:109-125 | xor with one << k toggles bit k and no other |
| `BigNum.BitAt` | programs/amm/src/libraries/big_num.rs:153-157 | the bit test reads bit k of the value |
| `BigNum.IsZero` | programs/amm/src/libraries/big_num.rs:132-138 | the zero test of a word array is that of its value |
| `BigNum.LeadingZeros` | programs/amm/src/libraries/big_num.rs:159-172 | the count locates the highest set bit |
| `BigNum.TrailingZeros` | programs/amm/src/libraries/big_num.rs:174-187 | the count locates the lowest set bit |
| `BigNum.LeadingZerosFindsHighest` | programs/amm/src/libraries/tick_array_bit_map.rs:105-117 | shift left and count: exactly the highest set bit at or below a position, or none |
| `BigNum.TrailingZerosFindsLowest` | programs/amm/src/libraries/tick_array_bit_map.rs:119-135 | shift right and count: exactly the lowest set bit at or above a position, or none |
| `ArrayIndex.StartIndexIsFloor` | programs/amm/src/states/tick_array.rs:255-262 | the truncating start index is the floor, also for negative ticks |
| `ArrayIndex.OffsetIndexOfArray` | programs/amm/src/states/tickarray_bitmap_extension.rs:55-89 | which extension bitmap an array is routed to, and exactly when it is refused |
| `ArrayIndex.OffsetOfArray` | programs/amm/src/states/tickarray_bitmap_extension.rs:220-227 | the bit an array has within its extension bitmap, for both signs |
| `ArrayIndex.BoundaryOfArray` | programs/amm/src/libraries/tick_array_bit_map.rs:15-29 | the first and last tick of an array's bitmap |
| `NearestArray.SearchIsNearest` | programs/amm/src/states/pool.rs:506-550 | with the extension supplied the three-level search ends, never errs, and returns exactly the nearest marked array in its direction, or none when there is none, also from the extension through the pool's bitmap to the other side |
| `NearestArray.NextInitializedArrayIsNearest` | programs/amm/src/states/pool.rs:506-550 | the same from any tick |
| `TickIndex.FlipToggles` | programs/amm/src/states/pool.rs:446-469 | flipping succeeds if and only if the array is not refused and the extension is there when needed, and then toggles exactly that array's bit in exactly one bitmap |
| `TickIndex.RefusedExample` | programs/amm/src/states/pool.rs:586-597 | a concrete array, at spacing 60, whose bit no call can flip |
| `TickIndex.CountAndFlipKeepsBits` | programs/amm/src/states/tick_array.rs:144-151 | counts change by one and bits keep saying which counts are positive |
| `TickIndex.StoredKeepsCoherent` | programs/amm/src/instructions/open_position.rs:660-696 | after a mint's or burn's write-back, also with both ends in one array: bit set <=> count > 0 <=> some tick initialized, and the count is their number |
| `TickIndex.StoreSucceeds` | programs/amm/src/instructions/decrease_liquidity.rs:525-561 | that write-back fails for no other reason than an array that is refused or an extension that is missing; on a burn, only the latter |
| `IndexSafety.ModifyKeepsIndex` | programs/amm/src/instructions/open_position.rs:660-696 | arrays, counts, bitmaps and ticks stay in step over every change of liquidity |
| `IndexSafety.WithArrayKeepsIndex` | programs/amm/src/states/tick_array.rs:72-142 | creating an empty tick array keeps them in step |
| `IndexSafety.SlotsKnowTheirTick` | programs/amm/src/states/tick_array.rs:153-184 | each initialized tick stores start + offset*spacing of its place |
| `TickSearch.FirstInitializedTick` | programs/amm/src/states/tick_array.rs:187-206 | the first initialized tick from the side of entry, an error exactly when there is none |
| `TickSearch.NextInitializedTick` | programs/amm/src/states/tick_array.rs:211-242 | the nearest initialized tick within the array in the swap's direction, none exactly when there is none or the tick lies elsewhere |
| `TickSearch.FirstInitializedArrayIs` | programs/amm/src/states/pool.rs:471-504 | the first array of a swap is the current tick's when marked, else the nearest marked one |
| `TickSearch.FirstInitializedArrayFailsOnlyBy` | programs/amm/src/states/pool.rs:471-504 | with the extension supplied it errs if and only if the current tick lies in a refused array or nothing is marked there or beyond |
| `TickSearch.FindNextTick` | programs/amm/src/instructions/swap.rs:245-298 | the search over the arrays handed to a swap returns the nearest initialized tick of the pool; with all arrays supplied in order it finds one whenever one is left, and never skips an array needed later |
| `Amm.Amm.constructor` | programs/amm/src/instructions/create_pool.rs:107-159 | the accounts of a new pool represent the ledger's new pool |
| `Amm.Amm.FlipArrayBit` | programs/amm/src/states/pool.rs:446-469 | writes exactly what the index function says, and errs exactly where it does |
| `Amm.Amm.StoreTicks` | programs/amm/src/instructions/open_position.rs:660-696 | both ticks written, flipped ones counted, bits flipped, in the source's order |
| `Amm.Amm.AddLiquidity` | programs/amm/src/instructions/open_position.rs:603-779 | on the tick arrays and bitmaps: the ledger's mint; fails only where the ledger does or an array cannot be flipped |
| `Amm.Amm.IncreaseLiquidity` | programs/amm/src/instructions/increase_liquidity.rs:229-311 | likewise for increase_liquidity |
| `Amm.Amm.OpenPosition` | programs/amm/src/instructions/open_position.rs:429-600 | likewise for open_position, with the arrays and the range created on demand |
| `Amm.Amm.BurnLiquidity` | programs/amm/src/instructions/decrease_liquidity.rs:497-570 | likewise for a burn |
| `Amm.Amm.BurnAndCredit` | programs/amm/src/instructions/decrease_liquidity.rs:415-459 | likewise with the personal position |
| `Amm.Amm.CollectFees` | programs/amm/src/instructions/decrease_liquidity.rs:461-487 | the ledger's payment of owed fees, errors included |
| `Amm.Amm.CheckUnclaimedFees` | programs/amm/src/instructions/decrease_liquidity.rs:679-704 | the ledger's check of fees against vaults |
| `Amm.Amm.CollectRewards` | programs/amm/src/instructions/decrease_liquidity.rs:572-658 | the loop over the reward accounts is the ledger's collection of rewards |
| `Amm.Amm.DecreaseLiquidity` | programs/amm/src/instructions/decrease_liquidity.rs:248-413 | the ledger's decrease_liquidity, and so what `DecreaseOutcome.DecreaseIs` states of burn, payment, claims and rewards; fails only where the ledger does or the extension is missing |
| `Amm.Amm.TakeTurn` | programs/amm/src/instructions/swap.rs:299-457 | the step, the split of its fee and the crossing are one turn of the ledger's loop, errors included |
| `Amm.Amm.SplitFee` | programs/amm/src/instructions/swap.rs:370-411 | the running split of the fee equals the ledger's |
| `Amm.Amm.TakeFirstArray` | programs/amm/src/instructions/swap.rs:205-221 | pops the accounts to the first array, and fails only when it is not among them |
| `Amm.Amm.SwapLoopInPlace` | programs/amm/src/instructions/swap.rs:190-485 | the loop on tick arrays, bitmaps and the queue of accounts computes the ledger's loop; with all marked arrays passed in order it fails only where the ledger's does, and it never starts in a refused array |
| `Amm.Amm.WalkAndObserve` | programs/amm/src/instructions/swap.rs:190-502 | the loop and the observation after it: exactly one entry when the ring is unused, or the duration has passed and the price differs, and none otherwise; one more failure, exactly when the observation is due and does not fit |
| `Amm.Amm.SettleSwap` | programs/amm/src/instructions/swap.rs:486-809 | write-back, transfers and closing checks, errors included: each fee tally is added to its own figure of the input token, the other token's figures stand, the vaults move by what was paid and given |
| `Amm.Amm.Trade` | programs/amm/src/instructions/swap.rs:141-811 | the whole swap, in both directions, and exactly one observation of the old price when one is due, in the slot the pool then names: it does what the ledger does, and fails only where the ledger does, where arrays are missing, or where the observation is due and does not fit |
| `Amm.Amm.TakeProtocolFee` | programs/amm/src/instructions/admin/collect_protocol_fee.rs:68-125 | the ledger's withdrawal, errors included |
| `Amm.Amm.TakeFundFee` | programs/amm/src/instructions/admin/collect_fund_fee.rs:65-115 | the ledger's withdrawal, errors included |
| `Amm.Amm.NewReward` | programs/amm/src/instructions/initialize_reward.rs:76-155 | the ledger's new reward in the lowest free slot, errors included |
| `Amm.Amm.ChangeReward` | programs/amm/src/instructions/set_reward_params.rs:41-122 | the ledger's change of a reward, errors included |
| `Amm.Amm.TakeRemainingReward` | programs/amm/src/instructions/collect_remaining_rewards.rs:43-104 | the ledger's withdrawal of a surplus, errors included |
| `Amm.Amm.SetRates` | programs/amm/src/instructions/admin/update_amm_config.rs:45-60 | the three rates with their assertions |
| `Amm.Amm.Transact` | programs/amm/src/lib.rs:76-634 | every instruction either has the effect `Outcome.InstructionDoes` states, or leaves all accounts as they were; a swap writes exactly the observation that is due, everything else none; it errs only where the ledger does, where an array's bit cannot be flipped, swap accounts are missing or an observation does not fit; no mint to and no swap from a refused array ever goes through; index, invariant and observations hold either way |
| `TickMath.GetSqrtPriceAtTick` | programs/amm/src/libraries/tick_math.rs:31-121 | the nineteen conditional factors, the shift and the reciprocal compute the price function; an error exactly outside the tick range |
| `TickMath.RatioIsPositive` | programs/amm/src/libraries/tick_math.rs:31-113 | the truncated product is never zero, so the reciprocal never divides by zero |
| `TickMath.RatioFalls` | programs/amm/src/libraries/tick_math.rs:31-113 | the truncated product strictly falls with the tick, through every carry pattern of its bits and all nineteen truncations, by a margin the reciprocal keeps |
| `TickMath.PriceRises` | programs/amm/src/libraries/tick_math.rs:31-121 | the price strictly rises with every tick from the first to the last |
| `TickMath.ConcreteTableIsValid` | programs/amm/src/libraries/tick_math.rs:10-31 | the program's own table has the length, ends and strict order every other theorem assumes of the table |
| `TickMath.Log2` | programs/amm/src/libraries/tick_math.rs:127-162 | msb and the squaring loop's 16-bit fraction fall short of log2 of the price by less than two units of the last bit, for every u128 above 0; the invariants keep r between 2^63 and 2^64, so no square outgrows u128 |
| `Logarithms.RatioWithin` | programs/amm/src/libraries/tick_math.rs:31-113 | each factor takes off the logarithm of the product what 1.0001 does, to within four units of 2^-28, truncation included |
| `TickAtPrice.PriceWithin` | programs/amm/src/libraries/tick_math.rs:31-121 | the price of every tick is a power of 1.0001 to within a two-hundredth of a tick, from both sides |
| `TickAtPrice.CandidatesHit` | programs/amm/src/libraries/tick_math.rs:164-183 | the two candidates of the logarithm never miss: the higher one is a tick, and the one taken is the greatest tick whose price is at most the given one |
| `TickAtPrice.GetTickAtSqrtPrice` | programs/amm/src/libraries/tick_math.rs:127-183 | the program's inverse is the documented one on every price: price(t) <= P < price(t+1), and an error exactly outside the price range; the candidates stay within i32 |
| `TickAtPrice.TickOfItsPrice` | programs/amm/src/libraries/tick_math.rs:123-127 | from any tick to its price and back |
| `Oracle.ObservationState.UpdateCheck` | programs/amm/src/states/oracle.rs:71-113 | writes exactly when the ring is unused, or the duration has passed and the price differs, errs exactly when it should write and the cumulative price outgrows its width, appends one entry to the history the ring tracks, in the next slot, and changes nothing otherwise |
| `Oracle.AppendKeepsTracking` | programs/amm/src/states/oracle.rs:71-113 | overwriting the oldest slot keeps the ring on the latest observations, across the wrap of the index |
| `Oracle.RetainedAreChained` | programs/amm/src/states/oracle.rs:71-113 | adjacent retained entries, in ring order up to the seam, are at least the duration apart and differ by floor(p^2/2^64)*elapsed modulo 2^128 |

## Left out

- SwapOutcome.SwapFailsOnlyBy: is about the ledger's swap, which has no observations; the one failure they add is stated where they are written, in `Amm.Amm.Trade`.
- SwapSuccess.StepGoesThrough: asks that the whole way to the target fits; a step that stops short of a target whose figures outgrow their widths may go through as well.
- SwapSuccess.SwapMeetsObstacle: takes the amount to be a u64, which the source's argument is.
- Transfer fees of Token-2022 mints: taken as 0, so amounts in and out are what the pool computes; vault balances are unbounded integers, not u64.
- `close_position`: an emptied personal position stays in the model, where it claims nothing; `swap_router_base_in` only sequences swaps.
- Swap statistics (`swap_in_amount_token_0` and the like) and their overflow checks, events, logs, NFT minting and metadata.
- `pool_check_reset`, configuration and ownership accounts other than the three fee rates, access control, whitelists, mint checks, account addresses and bumps.
- Duplicate accounts: the runtime refuses to load one account twice; here such a list is searched like any other.
- The token accounts behind rewards: a reward's funding arrives in its vault, and collection is limited by the vault as in the source; nothing is claimed about deposits covering emissions beyond `RewardAdmin.FundingFollowsSchedule`.
- Quote.SwapCompute: asks for a limit that is 0 or strictly between the extreme prices, as the program does; the client also lets the extreme prices themselves pass. The list of array indices it returns beside the amount is left out.
- Accounts within the class `Amm` are records written back whole, field by field as values; aliasing between account references is not captured.
- A range's own tally of owed fees (`token_fees_owed` of the protocol position) is updated as in the source but bounded by nothing; its overflow may stop a mint or a burn (`PositionSuccess.ModifyGoesThrough`).
- The `programs/03_task_runner_oracle` program, all TypeScript, the client's RPC plumbing and its floating-point helpers.
