/** Constant-product pricing: the off-chain quote, the on-chain quote, and what relates them.

    The off-chain engine multiplies in `u128` and, in a release build, wraps; the on-chain module
    aborts instead. `CurveOut` is the price on the unbounded curve that both are meant to compute. */
module Amm {
  import opened Arith
  import opened Chain

  const FEE_DENOM: nat := 10_000

  predicate Degenerate(amountIn: nat, reserveIn: nat, reserveOut: nat, feeBps: nat) {
    amountIn == 0 || reserveIn == 0 || reserveOut == 0 || feeBps >= FEE_DENOM
  }

  function WithFee(amountIn: nat, feeBps: nat): nat
    requires feeBps < FEE_DENOM
  {
    amountIn * (FEE_DENOM - feeBps)
  }

  lemma WithFeeBounds(amountIn: nat, feeBps: nat)
    requires feeBps < FEE_DENOM
    ensures amountIn <= WithFee(amountIn, feeBps) <= amountIn * FEE_DENOM
  {
    MulLe(1, FEE_DENOM - feeBps, amountIn);
    MulLe(FEE_DENOM - feeBps, FEE_DENOM, amountIn);
  }

  /** The exact quote: the greatest output that keeps the fee-adjusted reserve product. */
  function CurveOut(amountIn: nat, reserveIn: nat, reserveOut: nat, feeBps: nat): (out: nat)
    requires !Degenerate(amountIn, reserveIn, reserveOut, feeBps)
    ensures out < reserveOut
    ensures var depth, paid := reserveIn * FEE_DENOM, WithFee(amountIn, feeBps);
            && (depth + paid) * (reserveOut - out) >= depth * reserveOut
            && (depth + paid) * (reserveOut - out - 1) < depth * reserveOut
  {
    var paid := WithFee(amountIn, feeBps);
    WithFeeBounds(amountIn, feeBps);
    var depth := reserveIn * FEE_DENOM;
    var out := (paid * reserveOut) / (depth + paid);
    CurveOutSound(paid, depth, reserveOut);
    out
  }

  lemma CurveOutSound(paid: nat, depth: nat, reserveOut: nat)
    requires depth > 0 && reserveOut > 0
    ensures var out := (paid * reserveOut) / (depth + paid);
            && 0 <= out < reserveOut
            && (depth + paid) * (reserveOut - out) >= depth * reserveOut
            && (depth + paid) * (reserveOut - out - 1) < depth * reserveOut
  {
    var d := depth + paid;
    var out := (paid * reserveOut) / d;
    FloorBounds(paid * reserveOut, d);
    assert d * (reserveOut - out) == depth * reserveOut + paid * reserveOut - out * d;
    assert d * (reserveOut - out - 1) == d * (reserveOut - out) - d;
    assert (out + 1) * d == out * d + d;
    assert depth * reserveOut > 0;
    assert out < reserveOut by { CancelLt(0, reserveOut - out, d); }
  }

  /** No larger output keeps the product. */
  lemma CurveOutGreatest(amountIn: nat, reserveIn: nat, reserveOut: nat, feeBps: nat, paid: nat, q: int)
    requires !Degenerate(amountIn, reserveIn, reserveOut, feeBps)
    requires paid == WithFee(amountIn, feeBps)
    requires (reserveIn * FEE_DENOM + paid) * (reserveOut - q) >= (reserveIn * FEE_DENOM) * reserveOut
    ensures q <= CurveOut(amountIn, reserveIn, reserveOut, feeBps)
  {
    var out := CurveOut(amountIn, reserveIn, reserveOut, feeBps);
    WithFeeBounds(amountIn, feeBps);
    hide *;
    CancelLt(reserveOut - out - 1, reserveOut - q, reserveIn * FEE_DENOM + paid);
  }

  /** Wrapping to `u128`. */
  function Wrap128(n: nat): nat {
    n % TWO_128
  }

  lemma WrapDrops(n: nat)
    ensures n < TWO_128 ==> Wrap128(n) == n
    ensures n >= TWO_128 ==> Wrap128(n) + TWO_128 <= n
  {}

  /** Truncating to `u64`. */
  function Cast64(n: nat): u64 {
    n % TWO_64
  }

  lemma CastKeeps(n: nat)
    ensures n < TWO_64 ==> Cast64(n) == n
  {}

  /** A `u128` quotient cast to `u64` as the engine computes it: wrap, divide, truncate. */
  function WrappingQuotient(numerator: nat, denominator: nat): u64
    requires denominator > 0
  {
    Cast64(Wrap128(numerator) / denominator)
  }

  /** The same quotient as the chain computes it: abort as soon as a width is exceeded. */
  function CheckedQuotient(numerator: nat, denominator: nat): Outcome<u64>
    requires denominator > 0
  {
    if numerator >= TWO_128 || denominator >= TWO_128 then Aborted(Arithmetic)
    else if numerator / denominator >= TWO_64 then Aborted(Arithmetic)
    else Done(numerator / denominator)
  }

  lemma QuotientParity(n: nat, d: nat)
    requires 0 < d < TWO_128 && n / d < TWO_64
    ensures n < TWO_128 ==> WrappingQuotient(n, d) == n / d && CheckedQuotient(n, d) == Done(n / d)
    ensures n >= TWO_128 ==> WrappingQuotient(n, d) < n / d && CheckedQuotient(n, d) == Aborted(Arithmetic)
  {
    WrapDrops(n);
    CastKeeps(Wrap128(n) / d);
    hide Wrap128, Cast64;
    if n >= TWO_128 {
      QuotientDrops(Wrap128(n), n, d);
    }
  }

  function OutNumerator(amountIn: nat, reserveOut: nat, feeBps: nat): nat
    requires feeBps < FEE_DENOM
  {
    WithFee(amountIn, feeBps) * reserveOut
  }

  function OutDenominator(amountIn: nat, reserveIn: nat, feeBps: nat): nat
    requires feeBps < FEE_DENOM
  {
    reserveIn * FEE_DENOM + WithFee(amountIn, feeBps)
  }

  /** `amm::get_amount_out`. Only the numerator can leave `u128`; see `OutWidths`. */
  function GetAmountOut(amountIn: u64, reserveIn: u64, reserveOut: u64, feeBps: u64): Option<u64> {
    if Degenerate(amountIn, reserveIn, reserveOut, feeBps) then None
    else Some(WrappingQuotient(OutNumerator(amountIn, reserveOut, feeBps),
                               OutDenominator(amountIn, reserveIn, feeBps)))
  }

  /** `math::get_amount_out`: the same guards in the order of the asserts. */
  function MoveGetAmountOut(amountIn: u64, reserveIn: u64, reserveOut: u64, feeBps: u64): Outcome<u64> {
    if amountIn == 0 then Aborted(ZeroInput)
    else if reserveIn == 0 || reserveOut == 0 then Aborted(InsufficientLiquidity)
    else if feeBps >= FEE_DENOM then Aborted(BadFee)
    else CheckedQuotient(OutNumerator(amountIn, reserveOut, feeBps),
                         OutDenominator(amountIn, reserveIn, feeBps))
  }

  lemma OutWidths(amountIn: u64, reserveIn: u64, feeBps: u64)
    requires feeBps < FEE_DENOM
    ensures WithFee(amountIn, feeBps) < TWO_128
    ensures OutDenominator(amountIn, reserveIn, feeBps) < TWO_128
  {
    WithFeeBounds(amountIn, feeBps);
  }

  /** The one product of the quote that can leave `u128`. */
  predicate OutFits(amountIn: nat, reserveOut: nat, feeBps: nat)
    requires feeBps < FEE_DENOM
  {
    OutNumerator(amountIn, reserveOut, feeBps) < TWO_128
  }

  /** Off chain and on chain agree exactly when the product fits; otherwise the chain aborts while
      the engine reports a strictly smaller output. */
  lemma OutParity(amountIn: u64, reserveIn: u64, reserveOut: u64, feeBps: u64)
    ensures Degenerate(amountIn, reserveIn, reserveOut, feeBps) ==>
              GetAmountOut(amountIn, reserveIn, reserveOut, feeBps).None?
              && MoveGetAmountOut(amountIn, reserveIn, reserveOut, feeBps).Aborted?
    ensures !Degenerate(amountIn, reserveIn, reserveOut, feeBps) ==>
              var exact := CurveOut(amountIn, reserveIn, reserveOut, feeBps);
              var quoted := GetAmountOut(amountIn, reserveIn, reserveOut, feeBps);
              var paid := MoveGetAmountOut(amountIn, reserveIn, reserveOut, feeBps);
              && quoted.Some?
              && (OutFits(amountIn, reserveOut, feeBps) <==> quoted.value == exact)
              && (OutFits(amountIn, reserveOut, feeBps) <==> paid == Done(exact))
              && (!OutFits(amountIn, reserveOut, feeBps) ==>
                    paid == Aborted(Arithmetic) && quoted.value < exact)
  {
    if !Degenerate(amountIn, reserveIn, reserveOut, feeBps) {
      OutWidths(amountIn, reserveIn, feeBps);
      var exact := CurveOut(amountIn, reserveIn, reserveOut, feeBps);
      assert exact == OutNumerator(amountIn, reserveOut, feeBps) / OutDenominator(amountIn, reserveIn, feeBps);
      QuotientParity(OutNumerator(amountIn, reserveOut, feeBps), OutDenominator(amountIn, reserveIn, feeBps));
    }
  }

  /** The whole quote in plain numbers: who refuses what and with which code, and what is paid. The output is the
      one at which the fee-adjusted product still holds and one more unit breaks it. */
  lemma QuoteInNumbers(amountIn: u64, reserveIn: u64, reserveOut: u64, feeBps: u64)
    ensures var quoted, paid := GetAmountOut(amountIn, reserveIn, reserveOut, feeBps),
                                MoveGetAmountOut(amountIn, reserveIn, reserveOut, feeBps);
            && (quoted.None? <==> amountIn == 0 || reserveIn == 0 || reserveOut == 0 || feeBps >= 10_000)
            && (paid == Aborted(ZeroInput) <==> amountIn == 0)
            && (paid == Aborted(InsufficientLiquidity) <==> amountIn > 0 && (reserveIn == 0 || reserveOut == 0))
            && (paid == Aborted(BadFee) <==> amountIn > 0 && reserveIn > 0 && reserveOut > 0 && feeBps >= 10_000)
            && (quoted.Some? ==>
                  var net := amountIn * (10_000 - feeBps);
                  if net * reserveOut >= 0x1_0000_0000_0000_0000_0000_0000_0000_0000 then paid == Aborted(Arithmetic)
                  else paid == Done(quoted.value)
                       && OnCurve(reserveIn * 10_000, net, reserveOut, quoted.value))
  {
    OutParity(amountIn, reserveIn, reserveOut, feeBps);
    if !Degenerate(amountIn, reserveIn, reserveOut, feeBps) {
      var out := CurveOut(amountIn, reserveIn, reserveOut, feeBps);
      assert OnCurve(reserveIn * 10_000, WithFee(amountIn, feeBps), reserveOut, out);
    }
    hide CurveOut, WrappingQuotient, OutDenominator, CheckedQuotient, OnCurve;
  }

  /** `out` is the greatest output that keeps the product of a pool of this depth. */
  predicate OnCurve(depth: int, net: int, reserveOut: int, out: int) {
    && 0 <= out < reserveOut
    && (depth + net) * (reserveOut - out) >= depth * reserveOut
    && (depth + net) * (reserveOut - out - 1) < depth * reserveOut
  }

  /** A triple of amounts on which the two implementations part. */
  lemma OutParityFailsBeyondU128()
    ensures exists amountIn: u64, reserveIn: u64, reserveOut: u64, feeBps: u64 ::
              GetAmountOut(amountIn, reserveIn, reserveOut, feeBps).Some?
              && MoveGetAmountOut(amountIn, reserveIn, reserveOut, feeBps).Aborted?
  {
    var big: u64 := TWO_64 - 1;
    assert !OutFits(big, big, 0);
    OutParity(big, 1, big, 0);
  }

  lemma QuoteNeverExceedsCurve(amountIn: u64, reserveIn: u64, reserveOut: u64, feeBps: u64)
    requires !Degenerate(amountIn, reserveIn, reserveOut, feeBps)
    ensures GetAmountOut(amountIn, reserveIn, reserveOut, feeBps).Some?
    ensures GetAmountOut(amountIn, reserveIn, reserveOut, feeBps).value
            <= CurveOut(amountIn, reserveIn, reserveOut, feeBps)
  {
    OutParity(amountIn, reserveIn, reserveOut, feeBps);
  }

  lemma CurveOutMonotone(less: nat, more: nat, reserveIn: nat, reserveOut: nat, feeBps: nat)
    requires 0 < less <= more
    requires !Degenerate(less, reserveIn, reserveOut, feeBps)
    ensures CurveOut(less, reserveIn, reserveOut, feeBps) <= CurveOut(more, reserveIn, reserveOut, feeBps)
  {
    var a := CurveOut(less, reserveIn, reserveOut, feeBps);
    var depth := reserveIn * FEE_DENOM;
    MulLe(less, more, FEE_DENOM - feeBps);
    MulLe(depth + WithFee(less, feeBps), depth + WithFee(more, feeBps), reserveOut - a);
    CurveOutGreatest(more, reserveIn, reserveOut, feeBps, WithFee(more, feeBps), a);
  }

  /** The engine's own quote is monotone as long as the larger product stays inside `u128`. */
  lemma QuoteMonotone(less: u64, more: u64, reserveIn: u64, reserveOut: u64, feeBps: u64)
    requires 0 < less <= more
    requires !Degenerate(more, reserveIn, reserveOut, feeBps)
    requires OutFits(more, reserveOut, feeBps)
    ensures OutFits(less, reserveOut, feeBps)
    ensures GetAmountOut(less, reserveIn, reserveOut, feeBps).Some?
    ensures GetAmountOut(more, reserveIn, reserveOut, feeBps).Some?
    ensures GetAmountOut(less, reserveIn, reserveOut, feeBps).value
            <= GetAmountOut(more, reserveIn, reserveOut, feeBps).value
  {
    MulLe(less, more, FEE_DENOM - feeBps);
    MulLe(WithFee(less, feeBps), WithFee(more, feeBps), reserveOut);
    OutParity(less, reserveIn, reserveOut, feeBps);
    OutParity(more, reserveIn, reserveOut, feeBps);
    CurveOutMonotone(less, more, reserveIn, reserveOut, feeBps);
  }

  /** ... and exactly as long: the first input whose product wraps already pays less than the one before it. */
  lemma QuoteMonotoneIff(most: u64, reserveIn: u64, reserveOut: u64, feeBps: u64)
    requires !Degenerate(most, reserveIn, reserveOut, feeBps)
    ensures (forall less: u64, more: u64 :: 0 < less <= more <= most ==>
               QuotedAtMost(less, more, reserveIn, reserveOut, feeBps))
            <==> OutFits(most, reserveOut, feeBps)
  {
    if OutFits(most, reserveOut, feeBps) {
      forall less: u64, more: u64 | 0 < less <= more <= most
        ensures QuotedAtMost(less, more, reserveIn, reserveOut, feeBps)
      {
        QuoteMonotone(more, most, reserveIn, reserveOut, feeBps);
        QuoteMonotone(less, more, reserveIn, reserveOut, feeBps);
      }
    } else {
      var last := LastThatFits(most, reserveOut, feeBps);
      FirstWrapFalls(last, reserveIn, reserveOut, feeBps);
    }
  }

  predicate QuotedAtMost(less: u64, more: u64, reserveIn: u64, reserveOut: u64, feeBps: u64) {
    var a, b := GetAmountOut(less, reserveIn, reserveOut, feeBps), GetAmountOut(more, reserveIn, reserveOut, feeBps);
    a.Some? && b.Some? && a.value <= b.value
  }

  lemma {:induction false} LastThatFits(most: u64, reserveOut: u64, feeBps: u64) returns (last: u64)
    requires most > 0 && feeBps < FEE_DENOM && !OutFits(most, reserveOut, feeBps)
    ensures 0 < last < most && OutFits(last, reserveOut, feeBps) && !OutFits(last + 1, reserveOut, feeBps)
    decreases most
  {
    MulLe(FEE_DENOM - feeBps, FEE_DENOM, reserveOut);
    assert OutFits(1, reserveOut, feeBps);
    hide OutFits;
    if OutFits(most - 1, reserveOut, feeBps) {
      last := most - 1;
    } else {
      last := LastThatFits(most - 1, reserveOut, feeBps);
    }
  }

  lemma FirstWrapFalls(last: u64, reserveIn: u64, reserveOut: u64, feeBps: u64)
    requires last + 1 < TWO_64 && !Degenerate(last, reserveIn, reserveOut, feeBps)
    requires OutFits(last, reserveOut, feeBps) && !OutFits(last + 1, reserveOut, feeBps)
    ensures !QuotedAtMost(last, last + 1, reserveIn, reserveOut, feeBps)
  {
    var keep := FEE_DENOM - feeBps;
    var n, m := OutNumerator(last, reserveOut, feeBps), OutNumerator(last + 1, reserveOut, feeBps);
    var d, e := OutDenominator(last, reserveIn, feeBps), OutDenominator(last + 1, reserveIn, feeBps);
    assert m == n + keep * reserveOut by { assert (last + 1) * keep * reserveOut == last * keep * reserveOut + keep * reserveOut; }
    assert d <= e by { MulLe(last, last + 1, keep); }
    MulLe(keep, FEE_DENOM, reserveOut);
    WithFeeBounds(last + 1, feeBps);
    WrapDrops(m);
    OutParity(last, reserveIn, reserveOut, feeBps);
    OutWidths(last, reserveIn, feeBps);
    WithFeeBounds(last, feeBps);
    hide OutNumerator, OutDenominator, WithFee, MoveGetAmountOut;
    WrapFalls(n, m, d, e);
  }

  lemma WrapFalls(n: nat, m: nat, d: nat, e: nat)
    requires 0 < d <= e && n < TWO_128 <= m && m - n <= TWO_64 * FEE_DENOM && e <= 3 * TWO_64 * FEE_DENOM
    requires n / d < TWO_64
    ensures WrappingQuotient(m, e) < WrappingQuotient(n, d)
  {
    WrapDrops(m);
    WrapDrops(n);
    assert WrappingQuotient(n, d) == Cast64(n / d);
    assert WrappingQuotient(m, e) == Cast64(Wrap128(m) / e);
    CastKeeps(n / d);
    CastAtMost(Wrap128(m) / e);
    hide *;
    QuotientDrops(Wrap128(m), n, e);
    LargerDivisor(n, d, e);
  }

  lemma LargerDivisor(n: nat, d: nat, e: nat)
    requires 0 < d <= e
    ensures n / e <= n / d
  {
    FloorBounds(n, e);
    QuotientAtLeast(n, d, e, n / e);
  }

  lemma QuotientAtLeast(n: nat, d: nat, e: nat, q: nat)
    requires 0 < d <= e && q * e <= n
    ensures q <= n / d
  {
    GreatestQuotient(n, d, q);
    MulLe(d, e, q);
    assert d * q == q * d && e * q == q * e;
  }

  /** Every quote is below the marginal price before the trade. */
  lemma BelowMarginalPrice(amountIn: u64, reserveIn: u64, reserveOut: u64, feeBps: u64)
    requires GetAmountOut(amountIn, reserveIn, reserveOut, feeBps).Some?
    ensures var out := GetAmountOut(amountIn, reserveIn, reserveOut, feeBps).value;
            && out * reserveIn <= amountIn * reserveOut
            && (out > 0 ==> out * reserveIn < amountIn * reserveOut)
  {
    var out := GetAmountOut(amountIn, reserveIn, reserveOut, feeBps).value;
    QuoteNeverExceedsCurve(amountIn, reserveIn, reserveOut, feeBps);
    var exact := CurveOut(amountIn, reserveIn, reserveOut, feeBps);
    WithFeeBounds(amountIn, feeBps);
    MarginalBound(out, exact, amountIn, WithFee(amountIn, feeBps), reserveIn, reserveOut);
  }

  lemma MarginalBound(out: nat, exact: nat, amountIn: nat, paid: nat, reserveIn: nat, reserveOut: nat)
    requires out <= exact < reserveOut && 0 < paid <= amountIn * FEE_DENOM
    requires var depth := reserveIn * FEE_DENOM; (depth + paid) * (reserveOut - exact) >= depth * reserveOut
    ensures out * reserveIn <= amountIn * reserveOut
    ensures out > 0 ==> out * reserveIn < amountIn * reserveOut
  {
    var depth := reserveIn * FEE_DENOM;
    assert (depth + paid) * (reserveOut - exact)
        == depth * reserveOut + paid * reserveOut - exact * (depth + paid);
    MulLe(out, exact, depth + paid);
    MulLe(paid, amountIn * FEE_DENOM, reserveOut);
    assert out * (depth + paid) == out * depth + out * paid;
    assert out * depth == (out * reserveIn) * FEE_DENOM;
    assert (amountIn * FEE_DENOM) * reserveOut == (amountIn * reserveOut) * FEE_DENOM;
    MulNonNeg(out, paid);
    if out > 0 { MulLt(0, out, paid); }
  }

  /** Swapping there and back on one snapshot always loses. */
  lemma RoundTripLoses(amountIn: u64, reserveA: u64, reserveB: u64, feeBps: u64)
    requires GetAmountOut(amountIn, reserveA, reserveB, feeBps).Some?
    requires GetAmountOut(GetAmountOut(amountIn, reserveA, reserveB, feeBps).value, reserveB, reserveA, feeBps).Some?
    ensures GetAmountOut(GetAmountOut(amountIn, reserveA, reserveB, feeBps).value, reserveB, reserveA, feeBps).value
            < amountIn
  {
    var there := GetAmountOut(amountIn, reserveA, reserveB, feeBps).value;
    var back := GetAmountOut(there, reserveB, reserveA, feeBps).value;
    BelowMarginalPrice(amountIn, reserveA, reserveB, feeBps);
    BelowMarginalPrice(there, reserveB, reserveA, feeBps);
    CancelLt(back, amountIn, reserveB);
  }

  // --- the inverse quote ---

  predicate Undeliverable(amountOut: nat, reserveIn: nat, reserveOut: nat, feeBps: nat) {
    amountOut == 0 || reserveIn == 0 || reserveOut <= amountOut || feeBps >= FEE_DENOM
  }

  function InNumerator(amountOut: nat, reserveIn: nat): nat {
    reserveIn * amountOut * FEE_DENOM
  }

  function InDenominator(amountOut: nat, reserveOut: nat, feeBps: nat): (d: nat)
    requires amountOut < reserveOut && feeBps < FEE_DENOM
    ensures d > 0
  {
    (reserveOut - amountOut) * (FEE_DENOM - feeBps)
  }

  /** The unbounded value of the inverse quote. */
  function CurveIn(amountOut: nat, reserveIn: nat, reserveOut: nat, feeBps: nat): nat
    requires !Undeliverable(amountOut, reserveIn, reserveOut, feeBps)
  {
    InNumerator(amountOut, reserveIn) / InDenominator(amountOut, reserveOut, feeBps) + 1
  }

  /** `amm::get_amount_in`, with the wrapping product, the truncating cast and the wrapping `+ 1`. */
  function GetAmountIn(amountOut: u64, reserveIn: u64, reserveOut: u64, feeBps: u64): Option<u64> {
    if Undeliverable(amountOut, reserveIn, reserveOut, feeBps) then None
    else
      var quotient := WrappingQuotient(InNumerator(amountOut, reserveIn), InDenominator(amountOut, reserveOut, feeBps));
      Some((quotient + 1) % TWO_64)
  }

  /** The inverse quote in plain numbers: who refuses what and with which code; where everything fits both return
      the least whole input strictly above the exact price. */
  lemma InverseQuoteInNumbers(amountOut: u64, reserveIn: u64, reserveOut: u64, feeBps: u64)
    ensures var quoted, charged := GetAmountIn(amountOut, reserveIn, reserveOut, feeBps),
                                   MoveGetAmountIn(amountOut, reserveIn, reserveOut, feeBps);
            && (quoted.None? <==> amountOut == 0 || reserveIn == 0 || reserveOut <= amountOut || feeBps >= 10_000)
            && (charged == Aborted(ZeroInput) <==> amountOut == 0)
            && (charged == Aborted(InsufficientLiquidity) <==> amountOut > 0 && (reserveIn == 0 || reserveOut <= amountOut))
            && (charged == Aborted(BadFee) <==>
                  amountOut > 0 && reserveIn > 0 && reserveOut > amountOut && feeBps >= 10_000)
            && (charged.Done? ==> quoted == Some(charged.value))
            && (charged.Done? ==>
                  var cost, rate := reserveIn * amountOut * 10_000, (reserveOut - amountOut) * (10_000 - feeBps);
                  (charged.value - 1) * rate <= cost < charged.value * rate)
  {
    InverseQuoteParity(amountOut, reserveIn, reserveOut, feeBps);
    if !Undeliverable(amountOut, reserveIn, reserveOut, feeBps) {
      FloorBounds(InNumerator(amountOut, reserveIn), InDenominator(amountOut, reserveOut, feeBps));
    }
    hide WrappingQuotient, CheckedQuotient;
  }

  /** What the chain's checked `quotient + 1` gives. */
  function CheckedSuccessor(quotient: Outcome<u64>): Outcome<u64> {
    match quotient
    case Aborted(code) => Aborted(code)
    case Done(q) => if q + 1 < TWO_64 then Done(q + 1) else Aborted(Arithmetic)
  }

  /** `math::get_amount_in`: the guards in the order of the asserts, and a checked `+ 1`. */
  function MoveGetAmountIn(amountOut: u64, reserveIn: u64, reserveOut: u64, feeBps: u64): Outcome<u64> {
    if amountOut == 0 then Aborted(ZeroInput)
    else if reserveIn == 0 || reserveOut <= amountOut then Aborted(InsufficientLiquidity)
    else if feeBps >= FEE_DENOM then Aborted(BadFee)
    else
      CheckedSuccessor(CheckedQuotient(InNumerator(amountOut, reserveIn), InDenominator(amountOut, reserveOut, feeBps)))
  }

  lemma InDenominatorFits(amountOut: nat, reserveOut: u64, feeBps: nat)
    requires amountOut < reserveOut && feeBps < FEE_DENOM
    ensures InDenominator(amountOut, reserveOut, feeBps) <= TWO_64 * FEE_DENOM
  {
    MulLe(reserveOut - amountOut, TWO_64, FEE_DENOM - feeBps);
    MulLe(FEE_DENOM - feeBps, FEE_DENOM, TWO_64);
  }

  /** Both return the intended input exactly when the product fits `u128` and the result `u64`;
      otherwise the chain aborts and the engine returns some other number. */
  lemma InverseQuoteParity(amountOut: u64, reserveIn: u64, reserveOut: u64, feeBps: u64)
    ensures Undeliverable(amountOut, reserveIn, reserveOut, feeBps) ==>
              GetAmountIn(amountOut, reserveIn, reserveOut, feeBps).None?
              && MoveGetAmountIn(amountOut, reserveIn, reserveOut, feeBps).Aborted?
    ensures !Undeliverable(amountOut, reserveIn, reserveOut, feeBps) ==>
              var exact := CurveIn(amountOut, reserveIn, reserveOut, feeBps);
              var fits := InNumerator(amountOut, reserveIn) < TWO_128 && exact < TWO_64;
              && (GetAmountIn(amountOut, reserveIn, reserveOut, feeBps) == Some(exact) <==> fits)
              && (MoveGetAmountIn(amountOut, reserveIn, reserveOut, feeBps) == Done(exact) <==> fits)
              && (!fits ==> MoveGetAmountIn(amountOut, reserveIn, reserveOut, feeBps) == Aborted(Arithmetic))
  {
    if !Undeliverable(amountOut, reserveIn, reserveOut, feeBps) {
      InDenominatorFits(amountOut, reserveOut, feeBps);
      SuccessorParity(InNumerator(amountOut, reserveIn), InDenominator(amountOut, reserveOut, feeBps));
      hide InNumerator, InDenominator, WrappingQuotient, CheckedQuotient;
    }
  }

  lemma SuccessorParity(n: nat, d: nat)
    requires 0 < d < TWO_128
    ensures var fits := n < TWO_128 && n / d + 1 < TWO_64;
            && ((WrappingQuotient(n, d) + 1) % TWO_64 == n / d + 1 <==> fits)
            && CheckedSuccessor(CheckedQuotient(n, d)) == if fits then Done(n / d + 1) else Aborted(Arithmetic)
  {
    if n / d < TWO_64 { QuotientParity(n, d); }
  }

  /** Paying `amountIn` delivers `amountOut` exactly when `amountIn` covers the curve's real-valued price. */
  lemma DeliversIffCovered(amountIn: nat, amountOut: nat, reserveIn: nat, reserveOut: nat, feeBps: nat)
    requires amountIn > 0 && !Undeliverable(amountOut, reserveIn, reserveOut, feeBps)
    ensures CurveOut(amountIn, reserveIn, reserveOut, feeBps) >= amountOut
            <==> amountIn * InDenominator(amountOut, reserveOut, feeBps) >= InNumerator(amountOut, reserveIn)
  {
    var paid, depth := WithFee(amountIn, feeBps), reserveIn * FEE_DENOM;
    var d := depth + paid;
    WithFeeBounds(amountIn, feeBps);
    assert amountIn * InDenominator(amountOut, reserveOut, feeBps) == paid * (reserveOut - amountOut);
    assert InNumerator(amountOut, reserveIn) == depth * amountOut;
    assert d * (reserveOut - amountOut)
        == depth * reserveOut - depth * amountOut + paid * (reserveOut - amountOut);
    var out := CurveOut(amountIn, reserveIn, reserveOut, feeBps);
    if out >= amountOut {
      MulLe(reserveOut - out, reserveOut - amountOut, d);
    } else {
      MulLe(reserveOut - amountOut, reserveOut - out - 1, d);
    }
  }

  /** The inverse quote delivers, and overpays by at most one unit: by none exactly when the division
      leaves a remainder. */
  lemma QuoteInversion(amountOut: nat, reserveIn: nat, reserveOut: nat, feeBps: nat)
    requires !Undeliverable(amountOut, reserveIn, reserveOut, feeBps)
    ensures var need := CurveIn(amountOut, reserveIn, reserveOut, feeBps);
            && CurveOut(need, reserveIn, reserveOut, feeBps) >= amountOut
            && (forall less: nat :: 0 < less && CurveOut(less, reserveIn, reserveOut, feeBps) >= amountOut
                                    ==> need - 1 <= less)
            && ((need - 1 > 0 && CurveOut(need - 1, reserveIn, reserveOut, feeBps) >= amountOut)
                <==> InNumerator(amountOut, reserveIn) % InDenominator(amountOut, reserveOut, feeBps) == 0)
  {
    var need := CurveIn(amountOut, reserveIn, reserveOut, feeBps);
    var n, d := InNumerator(amountOut, reserveIn), InDenominator(amountOut, reserveOut, feeBps);
    assert n > 0 by { MulLt(0, reserveIn, amountOut); }
    SuccessorCovers(n, d);
    DeliversIffCovered(need, amountOut, reserveIn, reserveOut, feeBps);
    forall less: nat | 0 < less && CurveOut(less, reserveIn, reserveOut, feeBps) >= amountOut
      ensures need - 1 <= less
    {
      DeliversIffCovered(less, amountOut, reserveIn, reserveOut, feeBps);
      if less < need - 1 { MulLt(less, need - 1, d); }
    }
    if need - 1 > 0 {
      DeliversIffCovered(need - 1, amountOut, reserveIn, reserveOut, feeBps);
    }
  }

  lemma SuccessorCovers(n: nat, d: nat)
    requires n > 0 && d > 0
    ensures (n / d) * d <= n < (n / d + 1) * d
    ensures (n / d > 0 && (n / d) * d >= n) <==> n % d == 0
  {
    FloorBounds(n, d);
    assert n == (n / d) * d + n % d;
  }

  // --- the engine's own pair of quotes ---

  /** The engine's quote for `amountIn` is at least `amountOut`. */
  predicate Delivers(amountIn: u64, amountOut: u64, reserveIn: u64, reserveOut: u64, feeBps: u64) {
    var quoted := GetAmountOut(amountIn, reserveIn, reserveOut, feeBps);
    quoted.Some? && quoted.value >= amountOut
  }

  /** The same on chain. */
  predicate DeliversOnChain(amountIn: u64, amountOut: u64, reserveIn: u64, reserveOut: u64, feeBps: u64) {
    var paid := MoveGetAmountOut(amountIn, reserveIn, reserveOut, feeBps);
    paid.Done? && paid.value >= amountOut
  }

  /** What the engine delivers is covered by the curve; while the product fits, and always on chain, the
      converse holds as well. */
  lemma QuoteDeliversIffCovered(amountIn: u64, amountOut: u64, reserveIn: u64, reserveOut: u64, feeBps: u64)
    requires amountIn > 0 && !Undeliverable(amountOut, reserveIn, reserveOut, feeBps)
    ensures var covered := amountIn * InDenominator(amountOut, reserveOut, feeBps) >= InNumerator(amountOut, reserveIn);
            && (Delivers(amountIn, amountOut, reserveIn, reserveOut, feeBps) ==> covered)
            && (OutFits(amountIn, reserveOut, feeBps) && covered ==>
                  Delivers(amountIn, amountOut, reserveIn, reserveOut, feeBps))
            && (DeliversOnChain(amountIn, amountOut, reserveIn, reserveOut, feeBps) <==>
                  OutFits(amountIn, reserveOut, feeBps) && covered)
  {
    OutParity(amountIn, reserveIn, reserveOut, feeBps);
    DeliversIffCovered(amountIn, amountOut, reserveIn, reserveOut, feeBps);
    hide GetAmountOut, MoveGetAmountOut, InDenominator, InNumerator, OutFits;
  }

  /** The forward product of the inverse quote is so close to what it has to pay that wrapping it at all
      loses the delivery. */
  lemma InverseQuoteProduct(amountOut: u64, reserveIn: u64, reserveOut: u64, feeBps: u64, need: nat)
    requires !Undeliverable(amountOut, reserveIn, reserveOut, feeBps)
    requires need == CurveIn(amountOut, reserveIn, reserveOut, feeBps)
    ensures OutNumerator(need, reserveOut, feeBps)
            < amountOut * OutDenominator(need, reserveIn, feeBps) + TWO_128
  {
    var n, d := InNumerator(amountOut, reserveIn), InDenominator(amountOut, reserveOut, feeBps);
    var keep := FEE_DENOM - feeBps;
    InDenominatorFits(amountOut, reserveOut, feeBps);
    FloorBounds(n, d);
    assert need * d == (n / d) * d + d;
    NeedTimes(need, keep, amountOut, reserveIn, reserveOut, n, d);
  }

  lemma NeedTimes(need: nat, keep: nat, amountOut: nat, reserveIn: nat, reserveOut: nat, n: nat, d: nat)
    requires amountOut < reserveOut && d == (reserveOut - amountOut) * keep && n == reserveIn * amountOut * FEE_DENOM
    requires need * d <= n + d
    ensures (need * keep) * reserveOut <= amountOut * (reserveIn * FEE_DENOM + need * keep) + d
  {
    assert need * d == (need * keep) * reserveOut - (need * keep) * amountOut;
    assert n == amountOut * (reserveIn * FEE_DENOM);
    assert amountOut * (reserveIn * FEE_DENOM + need * keep)
        == amountOut * (reserveIn * FEE_DENOM) + (need * keep) * amountOut;
  }

  lemma WrapLoses(n: nat, d: nat, wanted: nat)
    requires 0 < d && n >= TWO_128 && n < wanted * d + TWO_128
    ensures WrappingQuotient(n, d) < wanted
  {
    WrapDrops(n);
    GreatestQuotient(Wrap128(n), d, wanted);
    assert Cast64(Wrap128(n) / d) <= Wrap128(n) / d;
  }

  /** The intended input delivers exactly when its forward product fits. */
  lemma IntendedInputDelivers(amountOut: u64, reserveIn: u64, reserveOut: u64, feeBps: u64, need: u64)
    requires !Undeliverable(amountOut, reserveIn, reserveOut, feeBps)
    requires need == CurveIn(amountOut, reserveIn, reserveOut, feeBps)
    ensures need > 0
    ensures Delivers(need, amountOut, reserveIn, reserveOut, feeBps) <==> OutFits(need, reserveOut, feeBps)
    ensures DeliversOnChain(need, amountOut, reserveIn, reserveOut, feeBps) <==> OutFits(need, reserveOut, feeBps)
  {
    OutParity(need, reserveIn, reserveOut, feeBps);
    QuoteInversion(amountOut, reserveIn, reserveOut, feeBps);
    InverseQuoteProduct(amountOut, reserveIn, reserveOut, feeBps, need);
    if !OutFits(need, reserveOut, feeBps) {
      WrapLoses(OutNumerator(need, reserveOut, feeBps), OutDenominator(need, reserveIn, feeBps), amountOut);
    }
    hide WrappingQuotient, CheckedQuotient, OutNumerator, OutDenominator;
  }

  /** Every number the engine returns in place of an intended input that does not fit is too small. */
  lemma TruncatedInputFallsShort(n: nat, d: nat)
    requires 0 < d <= TWO_64 * FEE_DENOM && !(n < TWO_128 && n / d + 1 < TWO_64)
    ensures (WrappingQuotient(n, d) + 1) % TWO_64 < n / d
            || (WrappingQuotient(n, d) + 1) % TWO_64 == 0
  {
    var q := WrappingQuotient(n, d);
    if n >= TWO_128 {
      WrapDrops(n);
      QuotientDropsTwice(Wrap128(n), n, d);
      CastAtMost(Wrap128(n) / d);
    } else {
      WrapDrops(n);
      assert q == Cast64(n / d);
    }
    hide Wrap128, WrappingQuotient;
  }

  lemma CastAtMost(n: nat)
    ensures Cast64(n) <= n
  {}

  lemma QuotientDropsTwice(w: nat, n: nat, d: nat)
    requires 0 < d && w + 2 * d <= n
    ensures w / d + 1 < n / d
  {
    FloorBounds(w, d);
    assert (w / d + 2) * d == (w / d) * d + 2 * d;
    hide *;
    GreatestQuotient(n, d, w / d + 2);
  }

  /** Feeding the engine's inverse quote back into the engine delivers what was asked exactly when the inverse
      product, its result and the forward product all fit; the pair on chain completes exactly then. No smaller
      input than one below the intended one ever delivers, and that one does, if they fit, exactly when the
      inverse division leaves no remainder. */
  lemma InverseQuoteDelivers(amountOut: u64, reserveIn: u64, reserveOut: u64, feeBps: u64)
    requires !Undeliverable(amountOut, reserveIn, reserveOut, feeBps)
    ensures var need := CurveIn(amountOut, reserveIn, reserveOut, feeBps);
            var fits := InNumerator(amountOut, reserveIn) < TWO_128 && need < TWO_64 && OutFits(need, reserveOut, feeBps);
            var quoted := GetAmountIn(amountOut, reserveIn, reserveOut, feeBps);
            var charged := MoveGetAmountIn(amountOut, reserveIn, reserveOut, feeBps);
            && quoted.Some?
            && (Delivers(quoted.value, amountOut, reserveIn, reserveOut, feeBps) <==> fits)
            && (fits ==> quoted.value == need)
            && (charged.Done? && DeliversOnChain(charged.value, amountOut, reserveIn, reserveOut, feeBps) <==> fits)
            && (forall less: u64 :: Delivers(less, amountOut, reserveIn, reserveOut, feeBps) ==> need - 1 <= less)
            && (fits ==> (Delivers(need - 1, amountOut, reserveIn, reserveOut, feeBps) <==>
                            InNumerator(amountOut, reserveIn) % InDenominator(amountOut, reserveOut, feeBps) == 0))
  {
    var need := CurveIn(amountOut, reserveIn, reserveOut, feeBps);
    InverseQuoteParity(amountOut, reserveIn, reserveOut, feeBps);
    forall less: u64 | Delivers(less, amountOut, reserveIn, reserveOut, feeBps) ensures need - 1 <= less {
      QuoteNeverExceedsCurve(less, reserveIn, reserveOut, feeBps);
      QuoteInversion(amountOut, reserveIn, reserveOut, feeBps);
    }
    if InNumerator(amountOut, reserveIn) < TWO_128 && need < TWO_64 {
      IntendedInputDelivers(amountOut, reserveIn, reserveOut, feeBps, need);
      if OutFits(need, reserveOut, feeBps) { OneLessDelivers(amountOut, reserveIn, reserveOut, feeBps, need); }
    } else {
      InDenominatorFits(amountOut, reserveOut, feeBps);
      TruncatedInputFallsShort(InNumerator(amountOut, reserveIn), InDenominator(amountOut, reserveOut, feeBps));
      assert !Delivers(0, amountOut, reserveIn, reserveOut, feeBps);
    }
    hide Delivers, DeliversOnChain, InNumerator, InDenominator, MoveGetAmountIn, OutFits, WrappingQuotient;
  }

  lemma OneLessDelivers(amountOut: u64, reserveIn: u64, reserveOut: u64, feeBps: u64, need: u64)
    requires !Undeliverable(amountOut, reserveIn, reserveOut, feeBps)
    requires need == CurveIn(amountOut, reserveIn, reserveOut, feeBps) && OutFits(need, reserveOut, feeBps)
    ensures need > 0
    ensures Delivers(need - 1, amountOut, reserveIn, reserveOut, feeBps) <==>
              InNumerator(amountOut, reserveIn) % InDenominator(amountOut, reserveOut, feeBps) == 0
  {
    QuoteInversion(amountOut, reserveIn, reserveOut, feeBps);
    if need - 1 > 0 {
      QuoteMonotone(need - 1, need, reserveIn, reserveOut, feeBps);
      OutParity(need - 1, reserveIn, reserveOut, feeBps);
    }
    hide InNumerator, InDenominator, OutFits, MoveGetAmountOut;
  }

  /** A deliverable output whose inverse quote is the intended one and still falls short. */
  lemma InverseQuoteFallsShort()
    ensures exists amountOut: u64, reserveIn: u64, reserveOut: u64, feeBps: u64 ::
              && !Undeliverable(amountOut, reserveIn, reserveOut, feeBps)
              && var need := CurveIn(amountOut, reserveIn, reserveOut, feeBps);
                 need < TWO_64 && GetAmountIn(amountOut, reserveIn, reserveOut, feeBps) == Some(need)
                 && !Delivers(need, amountOut, reserveIn, reserveOut, feeBps)
  {
    var amountOut: u64, reserveIn: u64, reserveOut: u64 := TWO_64 / 2, 0x8_0000_0000_0000, TWO_64 - 1;
    var need := CurveIn(amountOut, reserveIn, reserveOut, 0);
    assert need < TWO_64 && InNumerator(amountOut, reserveIn) < TWO_128 && !OutFits(need, reserveOut, 0);
    InverseQuoteParity(amountOut, reserveIn, reserveOut, 0);
    IntendedInputDelivers(amountOut, reserveIn, reserveOut, 0, need);
  }
}
