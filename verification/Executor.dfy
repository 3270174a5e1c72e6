/** The stateless executor: a receipt locks in a profit target, settling enforces it. */
module Executor {
  import opened Arith
  import opened Chain

  /** Hot potato opened by `begin`. It records no coin type. */
  datatype ArbReceipt = ArbReceipt(initiator: nat, initialAmount: u64, minProfit: u64)

  /** `begin`: the coin itself is handed back untouched. */
  function Begin(value: u64, minProfit: u64, sender: nat): ArbReceipt {
    ArbReceipt(sender, value, minProfit)
  }

  /** `assert_profit`. */
  function AssertProfit(initialAmount: u64, minProfit: u64, finalAmount: u64): Outcome<u64> {
    if minProfit > TWO_64 - 1 - initialAmount then Aborted(ProfitTargetOverflow)
    else if finalAmount < initialAmount + minProfit then Aborted(InsufficientProfit)
    else Done(finalAmount - initialAmount)
  }

  /** The gate passes exactly when the target is met, overflowing targets included, and then reports the profit;
      a target beyond `u64` has its own code. */
  lemma GateIsExact(initialAmount: u64, minProfit: u64, finalAmount: u64)
    ensures var r := AssertProfit(initialAmount, minProfit, finalAmount);
            && (r.Done? <==> finalAmount >= initialAmount + minProfit)
            && (r.Done? ==> initialAmount + r.value == finalAmount && r.value >= minProfit)
            && (r == Aborted(ProfitTargetOverflow) <==> initialAmount + minProfit > 18_446_744_073_709_551_615)
            && (r == Aborted(InsufficientProfit) <==>
                  finalAmount < initialAmount + minProfit <= 18_446_744_073_709_551_615)
  {}

  /** With a target of at least the fee, or one no amount can meet, passing the profit gate makes the
      repayment affordable; with any smaller target some final amount passes the gate and still cannot repay. */
  lemma GateCoversRepayment(amount: u64, fee: u64, minProfit: u64)
    ensures (forall final: u64 :: AssertProfit(amount, minProfit, final).Done? ==> final >= amount + fee)
            <==> minProfit >= fee || amount + minProfit >= TWO_64
  {
    if amount + minProfit < TWO_64 {
      var least: u64 := amount + minProfit;
      GateIsExact(amount, minProfit, least);
    }
  }
}
