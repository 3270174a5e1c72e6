/** What every on-chain call can do: return a value, or abort with a code and change nothing. */
module Chain {
  datatype Abort =
    | ZeroInput
    | InsufficientLiquidity
    | BadFee
    | Slippage
    | InsufficientProfit
    | ProfitTargetOverflow
    | RepayTooLow
    | WrongLender
    | NotEnoughBalance
    | Arithmetic
    | BadArgument

  datatype Outcome<+T> = Done(value: T) | Aborted(code: Abort)
}
