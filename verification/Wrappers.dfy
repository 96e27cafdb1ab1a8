/** The failure-carrying result of every modelled call. An error return, a failed `require!`
    and a panic all abort the transaction, so they share one type. */
module Wrappers {

  datatype Option<+T> = None | Some(value: T)

  datatype Error =
    // panics
    | Overflow                           // a result outside its integer width, or a None unwrapped
    | Underflow                          // a checked or overflow-checked subtraction below zero
    | ZeroDenominator
    | AssertionFailed
    // error codes
    | NotApproved
    | InvalidTickIndex
    | TickInvalidOrder
    | TickOverflow
    | TickAndSpacingNotMatch
    | InvalidTickArray
    | InvalidTickArrayBoundary
    | SqrtPriceX64
    | SqrtPriceLimitOverflow
    | LiquiditySubValue
    | InvalidLiquidity
    | ForbidBothZeroForSupplyLiquidity
    | LiquidityInsufficient
    | InsufficientLiquidityForDirection
    | PriceSlippageCheck
    | InvalidSwapAmountSpecified
    | TooSmallInputOrOutputAmount
    | TooLittleOutputReceived
    | TooMuchInputPaid
    | NotEnoughTickArrayAccount
    | InvalidFirstTickArrayAccount
    | MissingTickArrayBitmapExtensionAccount
    | InvalidRewardPeriod
    | NotApproveUpdateRewardEmissiones
    | UnInitializedRewardInfo
    | FullRewardInfo
    | InvalidRewardInitParam
    | RequireViolated                    // require_gt!, require_gte!, require_eq! without a code
    | InsufficientFunds                  // the token program refuses a transfer

  datatype Result<+T> = Ok(value: T) | Err(error: Error) {
    predicate IsFailure() {
      Err?
    }

    function PropagateFailure<U>(): Result<U>
      requires Err?
    {
      Err(error)
    }

    function Extract(): T
      requires Ok?
    {
      value
    }
  }

  /** `require!(condition, error)` */
  function Require(condition: bool, error: Error): Result<()> {
    if condition then Ok(()) else Err(error)
  }
}
