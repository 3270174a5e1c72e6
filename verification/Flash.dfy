/** The flash-loan vault and its receipts. */
module Flash {
  import opened Arith
  import opened Chain

  const FEE_DENOM: nat := 10_000

  /** Hot potato: binds a debt to the vault that issued it. */
  datatype FlashReceipt = FlashReceipt(lender: nat, amount: u64, fee: u64)

  /** The fee on the unbounded integers: the rate's share, rounded up. */
  function ExactFee(amount: nat, feeBps: nat): nat {
    CeilDiv(amount * feeBps, FEE_DENOM)
  }

  /** In parts per ten thousand: the vault never undercharges and never overcharges by a whole unit. */
  lemma FeeIsLeast(amount: nat, feeBps: nat, fee: nat)
    ensures fee * 10_000 >= amount * feeBps <==> fee >= ExactFee(amount, feeBps)
  {
    LeastQuotient(amount * feeBps, FEE_DENOM, fee);
  }

  /** `flash::fee_amount`; the products fit `u128`, only the closing cast can abort. */
  function FeeAmount(amount: u64, feeBps: u64): Outcome<u64> {
    var q := (amount * feeBps + FEE_DENOM - 1) / FEE_DENOM;
    if 0 <= q < TWO_64 then Done(q) else Aborted(Arithmetic)
  }

  /** `flashloan::quote_fee_bps`; the closing cast truncates. */
  function QuoteFeeBps(amount: u64, feeBps: u64): u64 {
    ExactFee(amount, feeBps) % TWO_64
  }

  /** `FlashLoanProvider::repay_total`, with its saturating sum. */
  function RepayTotal(amount: u64, feeBps: u64): u64 {
    Min(amount + QuoteFeeBps(amount, feeBps), TWO_64 - 1)
  }

  lemma CeilForms(n: nat)
    ensures (n + FEE_DENOM - 1) / FEE_DENOM == CeilDiv(n, FEE_DENOM)
  {}

  /** Off chain and on chain compute the same fee exactly when it fits `u64`, which every fee rate of
      at most 100% guarantees. */
  lemma FeeParity(amount: u64, feeBps: u64)
    ensures var exact := ExactFee(amount, feeBps);
            && (exact < TWO_64 <==> FeeAmount(amount, feeBps) == Done(exact))
            && (exact < TWO_64 <==> QuoteFeeBps(amount, feeBps) == exact)
            && (exact >= TWO_64 ==> FeeAmount(amount, feeBps) == Aborted(Arithmetic))
            && (exact - QuoteFeeBps(amount, feeBps)) % TWO_64 == 0
            && (feeBps <= 10_000 ==> exact <= amount)
            && (feeBps == 10_000 ==> exact == amount)
  {
    MulNonNeg(amount, feeBps);
    CeilForms(amount * feeBps);
    if feeBps <= FEE_DENOM {
      MulLe(feeBps, FEE_DENOM, amount);
      FeeIsLeast(amount, feeBps, amount);
    }
    if feeBps == FEE_DENOM && amount > 0 { FeeIsLeast(amount, feeBps, amount - 1); }
  }

  /** The provider's repayment figure is what the vault will ask for exactly when that fits `u64`. */
  lemma RepayTotalIsDue(amount: u64, feeBps: u64)
    ensures RepayTotal(amount, feeBps) == amount + ExactFee(amount, feeBps)
            <==> amount + ExactFee(amount, feeBps) < TWO_64
    ensures RepayTotal(amount, feeBps) >= amount
    ensures ExactFee(amount, feeBps) < TWO_64 <= amount + ExactFee(amount, feeBps) ==>
              RepayTotal(amount, feeBps) == 18_446_744_073_709_551_615
  {
    FeeParity(amount, feeBps);
    hide ExactFee, FeeAmount;
  }

  // --- the vault ---

  datatype Vault = Vault(token: string, reserve: u64, feeBps: u64)

  /** `borrow` from vault number `id`. */
  function Borrow(v: Vault, id: nat, amount: u64): Outcome<(Vault, FlashReceipt)> {
    match FeeAmount(amount, v.feeBps)
    case Aborted(code) => Aborted(code)
    case Done(fee) =>
      if amount > v.reserve then Aborted(NotEnoughBalance)
      else Done((v.(reserve := v.reserve - amount), FlashReceipt(id, amount, fee)))
  }

  /** `repay` into vault number `id`; returns the change. */
  function Repay(v: Vault, id: nat, receipt: FlashReceipt, payment: u64): Outcome<(Vault, u64)> {
    var due := receipt.amount + receipt.fee;
    if id != receipt.lender then Aborted(WrongLender)
    else if due >= TWO_64 then Aborted(Arithmetic)
    else if payment < due then Aborted(RepayTooLow)
    else if v.reserve + due >= TWO_64 then Aborted(Arithmetic)
    else Done((v.(reserve := v.reserve + due), payment - due))
  }

  /** The shared vault object. */
  class FlashLender {
    const id: nat
    const token: string
    const feeBps: u64
    var reserve: u64

    ghost function State(): Vault
      reads this
    {
      Vault(token, reserve, feeBps)
    }

    /** `create_lender`; its fee assert is the precondition. */
    constructor (lenderId: nat, asset: string, funds: u64, fee: u64)
      requires fee < FEE_DENOM
      ensures State() == Vault(asset, funds, fee) && id == lenderId
    {
      id, token, feeBps, reserve := lenderId, asset, fee, funds;
    }

    method Fund(funds: u64) returns (r: Outcome<()>)
      modifies this
      ensures r.Done? <==> old(reserve) + funds < TWO_64
      ensures reserve == if r.Done? then old(reserve) + funds else old(reserve)
    {
      if reserve + funds >= TWO_64 {
        return Aborted(Chain.Arithmetic);
      }
      reserve := reserve + funds;
      return Done(());
    }

    method Lend(amount: u64) returns (r: Outcome<FlashReceipt>)
      modifies this
      ensures match Borrow(old(State()), id, amount)
              case Done((vault, receipt)) => State() == vault && r == Done(receipt)
              case Aborted(code) => State() == old(State()) && r == Aborted(code)
    {
      var fee := FeeAmount(amount, feeBps);
      if fee.Aborted? {
        return Aborted(fee.code);
      }
      if amount > reserve {
        return Aborted(NotEnoughBalance);
      }
      reserve := reserve - amount;
      return Done(FlashReceipt(id, amount, fee.value));
    }

    method Collect(receipt: FlashReceipt, payment: u64) returns (r: Outcome<u64>)
      modifies this
      ensures match Repay(old(State()), id, receipt, payment)
              case Done((vault, change)) => State() == vault && r == Done(change)
              case Aborted(code) => State() == old(State()) && r == Aborted(code)
    {
      if id != receipt.lender {
        return Aborted(WrongLender);
      }
      var due: nat := receipt.amount + receipt.fee;
      if due >= TWO_64 {
        return Aborted(Chain.Arithmetic);
      }
      if payment < due {
        return Aborted(RepayTooLow);
      }
      if reserve + due >= TWO_64 {
        return Aborted(Chain.Arithmetic);
      }
      reserve := reserve + due;
      return Done(payment - due);
    }
  }

  /** Borrowing, outcome by outcome: the fee is computed first, then the reserve is asked for the amount. */
  lemma BorrowOutcomes(v: Vault, id: nat, amount: u64)
    ensures var fee, r := ExactFee(amount, v.feeBps), Borrow(v, id, amount);
            && (fee >= 0x1_0000_0000_0000_0000 ==> r == Aborted(Arithmetic))
            && (fee < 0x1_0000_0000_0000_0000 && amount > v.reserve ==> r == Aborted(NotEnoughBalance))
            && (fee < 0x1_0000_0000_0000_0000 && amount <= v.reserve ==>
                  r == Done((Vault(v.token, v.reserve - amount, v.feeBps), FlashReceipt(id, amount, fee))))
  {
    FeeParity(amount, v.feeBps);
    hide FeeAmount, ExactFee;
  }

  /** Repaying, outcome by outcome, in the order of the source's checks. */
  lemma RepayOutcomes(v: Vault, id: nat, receipt: FlashReceipt, payment: u64)
    ensures var due, r := receipt.amount + receipt.fee, Repay(v, id, receipt, payment);
            && (r == Aborted(WrongLender) <==> id != receipt.lender)
            && (r == Aborted(RepayTooLow) <==>
                  id == receipt.lender && payment < due < 0x1_0000_0000_0000_0000)
            && (r == Aborted(Arithmetic) <==>
                  id == receipt.lender
                  && (due >= 0x1_0000_0000_0000_0000
                      || (payment >= due && v.reserve + due >= 0x1_0000_0000_0000_0000)))
            && (r.Done? <==>
                  id == receipt.lender && payment >= due && v.reserve + due < 0x1_0000_0000_0000_0000)
            && (r.Done? ==> r.value == (Vault(v.token, v.reserve + due, v.feeBps), payment - due))
  {}

  /** A loan and its repayment leave the vault richer by exactly the rounded-up fee. */
  lemma LoanRoundTrip(v: Vault, id: nat, amount: u64, payment: u64)
    requires Borrow(v, id, amount).Done?
    requires var (lent, receipt) := Borrow(v, id, amount).value; Repay(lent, id, receipt, payment).Done?
    ensures var (lent, receipt) := Borrow(v, id, amount).value;
            var (after, change) := Repay(lent, id, receipt, payment).value;
            && after == v.(reserve := v.reserve + ExactFee(amount, v.feeBps))
            && payment == amount + ExactFee(amount, v.feeBps) + change
  {
    FeeParity(amount, v.feeBps);
    hide FeeAmount, ExactFee;
  }
}
