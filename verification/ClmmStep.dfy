/** One swap step of the concentrated-liquidity engine, on exact integers (Q64.64 square-root prices).

    `Covers` and `Releases` are the two curve relations of a range with constant liquidity: what an
    input must reach to move the price, and what output a price move may release. The engine's rounded
    helpers are characterised against them: least covering input, greatest released output, furthest
    affordable price. */
module ClmmStep {
  import opened Arith

  const Q64: nat := TWO_64
  const PIPS_DENOM: nat := 1_000_000
  const MIN_SQRT_PRICE: nat := 0x1_0000
  const MAX_SQRT_PRICE: nat := 0x100_0000_0000_0000_0000_0000_0000_0000

  /** `u256_div_ceil` or the plain division. */
  function Rounded(n: nat, d: nat, roundUp: bool): nat
    requires d > 0
  {
    if roundUp then CeilDiv(n, d) else n / d
  }

  /** `amount0_delta`. */
  function Amount0Delta(sa: nat, sb: nat, l: nat, roundUp: bool): nat {
    var lo, hi := if sa < sb then sa else sb, if sa < sb then sb else sa;
    if lo == 0 then 0 else
      MulNonNeg(l * Q64, hi - lo);
      MulLt(0, lo, hi);
      Rounded(l * Q64 * (hi - lo), lo * hi, roundUp)
  }

  /** `amount1_delta`. */
  function Amount1Delta(sa: nat, sb: nat, l: nat, roundUp: bool): nat {
    var lo, hi := if sa < sb then sa else sb, if sa < sb then sb else sa;
    MulNonNeg(l, hi - lo);
    Rounded(l * (hi - lo), Q64, roundUp)
  }

  /** The deltas of two prices in order. */
  lemma OrderedDeltas(lo: nat, hi: nat, l: nat, roundUp: bool)
    requires 0 < lo <= hi
    ensures lo * hi > 0 && (l * Q64) * (hi - lo) >= 0 && l * (hi - lo) >= 0
    ensures Amount0Delta(lo, hi, l, roundUp) == Rounded((l * Q64) * (hi - lo), lo * hi, roundUp)
    ensures Amount1Delta(lo, hi, l, roundUp) == Rounded(l * (hi - lo), Q64, roundUp)
  {
    MulNonNeg(l * Q64, hi - lo);
    MulNonNeg(l, hi - lo);
    MulLt(0, lo, hi);
    hide Rounded;
  }

  /** `next_sqrt_from_amount0_in`. */
  function NextSqrtFromAmount0In(sqrtPrice: nat, l: nat, amount: nat): nat
    requires l > 0
  {
    if amount == 0 then sqrtPrice else
      var numerator: nat := l * Q64;
      CeilDiv(numerator * sqrtPrice, numerator + amount * sqrtPrice)
  }

  /** `next_sqrt_from_amount1_in`. */
  function NextSqrtFromAmount1In(sqrtPrice: nat, l: nat, amount: nat): nat
    requires l > 0
  {
    sqrtPrice + amount * Q64 / l
  }

  /** The target lies ahead in the direction of travel (or is already reached). */
  predicate Ahead(cur: nat, target: nat, aToB: bool) {
    if aToB then 0 < target <= cur else 0 < cur <= target
  }

  /** `amount` of the input token is enough to move a range of liquidity `l` from `cur` to `to`. */
  predicate Covers(l: nat, cur: nat, to: nat, amount: int, aToB: bool) {
    if aToB then amount * (cur * to) >= (l * Q64) * (cur - to)
    else amount * Q64 >= l * (to - cur)
  }

  /** Moving from `cur` to `to` releases at least `amount` of the output token. */
  predicate Releases(l: nat, cur: nat, to: nat, amount: int, aToB: bool) {
    if aToB then amount * Q64 <= l * (cur - to)
    else amount * (to * cur) <= (l * Q64) * (to - cur)
  }

  /** The input amount the engine charges for a price move, and the output it pays for it. */
  function CostOf(l: nat, cur: nat, to: nat, aToB: bool): nat {
    if aToB then Amount0Delta(to, cur, l, true) else Amount1Delta(cur, to, l, true)
  }

  function YieldOf(l: nat, cur: nat, to: nat, aToB: bool): nat {
    if aToB then Amount1Delta(to, cur, l, false) else Amount0Delta(cur, to, l, false)
  }

  function Furthest(l: nat, cur: nat, amount: nat, aToB: bool): nat
    requires l > 0
  {
    if aToB then NextSqrtFromAmount0In(cur, l, amount) else NextSqrtFromAmount1In(cur, l, amount)
  }

  /** The charge is the least covering input. */
  lemma CostIsLeast(l: nat, cur: nat, to: nat, aToB: bool, amount: nat)
    requires Ahead(cur, to, aToB)
    ensures Covers(l, cur, to, amount, aToB) <==> amount >= CostOf(l, cur, to, aToB)
  {
    OrderedDeltas(if aToB then to else cur, if aToB then cur else to, l, true);
    hide Amount0Delta, Amount1Delta, Rounded;
    if aToB {
      RoundedUpIsLeast((l * Q64) * (cur - to), to * cur, amount);
      assert to * cur == cur * to;
    } else {
      RoundedUpIsLeast(l * (to - cur), Q64, amount);
    }
  }

  lemma RoundedUpIsLeast(n: nat, d: nat, amount: nat)
    requires d > 0
    ensures amount * d >= n <==> amount >= Rounded(n, d, true)
  {
    LeastQuotient(n, d, amount);
  }

  /** The payout is the greatest released output. */
  lemma YieldIsGreatest(l: nat, cur: nat, to: nat, aToB: bool, amount: nat)
    requires Ahead(cur, to, aToB)
    ensures Releases(l, cur, to, amount, aToB) <==> amount <= YieldOf(l, cur, to, aToB)
  {
    OrderedDeltas(if aToB then to else cur, if aToB then cur else to, l, false);
    hide Amount0Delta, Amount1Delta, Rounded;
    if aToB {
      RoundedDownIsGreatest(l * (cur - to), Q64, amount);
    } else {
      RoundedDownIsGreatest((l * Q64) * (to - cur), cur * to, amount);
      assert to * cur == cur * to;
    }
  }

  lemma RoundedDownIsGreatest(n: nat, d: nat, amount: nat)
    requires d > 0
    ensures amount * d <= n <==> amount <= Rounded(n, d, false)
  {
    GreatestQuotient(n, d, amount);
  }

  lemma CoversMonotone(l: nat, cur: nat, to: nat, x: nat, y: nat, aToB: bool)
    requires x <= y && Covers(l, cur, to, x, aToB)
    ensures Covers(l, cur, to, y, aToB)
  {
    MulNonNeg(cur, to);
    MulLe(x, y, cur * to);
  }

  /** The price an input reaches is the furthest one it covers. */
  lemma FurthestIsCovered(l: nat, cur: nat, amount: nat, aToB: bool, to: nat)
    requires l > 0 && cur > 0 && Ahead(cur, to, aToB)
    ensures Ahead(cur, Furthest(l, cur, amount, aToB), aToB)
    ensures Covers(l, cur, to, amount, aToB) <==> Ahead(to, Furthest(l, cur, amount, aToB), aToB)
  {
    if aToB {
      Furthest0(l * Q64, cur, amount, to);
    } else {
      GreatestQuotient(amount * Q64, l, to - cur);
    }
  }

  lemma Furthest0(s: nat, cur: nat, amount: nat, to: nat)
    requires s > 0 && 0 < to <= cur
    ensures var next := if amount == 0 then cur else CeilDiv(s * cur, s + amount * cur);
            && 0 < next <= cur
            && (amount * (cur * to) >= s * (cur - to) <==> next <= to)
  {
    if amount == 0 {
      if to < cur { MulLt(0, cur - to, s); }
    } else {
      var d := s + amount * cur;
      CoveredIffAbove(s, cur, amount, to, d);
      CoveredIffAbove(s, cur, amount, cur, d);
      MulNonNeg(amount, cur * cur);
      MulLt(0, s, cur);
      MulNonNeg(amount, cur);
      hide *;
      LeastQuotient(s * cur, d, to);
      LeastQuotient(s * cur, d, cur);
      LeastQuotient(s * cur, d, 0);
    }
  }

  lemma CoveredIffAbove(s: nat, cur: nat, amount: nat, to: nat, d: nat)
    requires d == s + amount * cur
    ensures amount * (cur * to) >= s * (cur - to) <==> to * d >= s * cur
  {
    assert to * d == to * s + (amount * cur) * to;
    assert s * (cur - to) == s * cur - s * to;
    assert (amount * cur) * to == amount * (cur * to);
  }

  // --- the step ---

  datatype Step = Step(next: nat, amountIn: nat, amountOut: nat, fee: nat)

  /** `mul_div_floor(amount_remaining, PIPS_DENOM - fee, PIPS_DENOM)`. */
  function NetInput(remaining: nat, feePips: nat): nat
    requires feePips < PIPS_DENOM
  {
    remaining * (PIPS_DENOM - feePips) / PIPS_DENOM
  }

  lemma NetInputBounds(remaining: nat, feePips: nat)
    requires feePips < PIPS_DENOM
    ensures NetInput(remaining, feePips) * PIPS_DENOM <= remaining * (PIPS_DENOM - feePips)
    ensures NetInput(remaining, feePips) <= remaining
  {
    MulLe(PIPS_DENOM - feePips, PIPS_DENOM, remaining);
  }

  /** More input at a lower fee leaves at least as much after the fee. */
  lemma NetInputMonotone(less: nat, more: nat, higher: nat, lower: nat)
    requires lower <= higher < PIPS_DENOM && less <= more
    ensures NetInput(less, higher) <= NetInput(more, lower)
  {
    MulLe(less, more, PIPS_DENOM - higher);
    MulLe(PIPS_DENOM - higher, PIPS_DENOM - lower, more);
  }

  /** `compute_swap_step`. */
  function ComputeSwapStep(cur: nat, target: nat, l: nat, remaining: nat, feePips: nat, aToB: bool): Step
    requires l > 0 && feePips < PIPS_DENOM && Ahead(cur, target, aToB)
  {
    var net := NetInput(remaining, feePips);
    var toTarget := CostOf(l, cur, target, aToB);
    var next := if net >= toTarget then target else Furthest(l, cur, net, aToB);
    var amountIn := if net >= toTarget then toTarget else CostOf(l, cur, next, aToB);
    var amountOut := YieldOf(l, cur, next, aToB);
    StopsInside(l, cur, target, net, aToB);
    NetInputBounds(remaining, feePips);
    MulNonNeg(amountIn, feePips);
    var fee: nat := if next != target then remaining - amountIn
               else CeilDiv(amountIn * feePips, PIPS_DENOM - feePips);
    Step(next, amountIn, amountOut, fee)
  }

  /** An input that does not cover the target stops strictly before it and pays for what it moved. */
  lemma StopsInside(l: nat, cur: nat, target: nat, net: nat, aToB: bool)
    requires l > 0 && Ahead(cur, target, aToB)
    ensures var next := Furthest(l, cur, net, aToB);
            net < CostOf(l, cur, target, aToB) ==>
              && Ahead(cur, next, aToB) && Ahead(next, target, aToB) && next != target
              && CostOf(l, cur, next, aToB) <= net
  {
    var next := Furthest(l, cur, net, aToB);
    FurthestIsCovered(l, cur, net, aToB, target);
    FurthestIsCovered(l, cur, net, aToB, next);
    CostIsLeast(l, cur, target, aToB, net);
    CostIsLeast(l, cur, next, aToB, net);
  }

  /** Price and input of a step: it stops at the furthest price, no further than the target, that the
      fee-reduced input covers; it charges the least input for that move and pays the greatest output. */
  lemma StepSound(cur: nat, target: nat, l: nat, remaining: nat, feePips: nat, aToB: bool)
    requires l > 0 && feePips < PIPS_DENOM && Ahead(cur, target, aToB)
    ensures var s, net := ComputeSwapStep(cur, target, l, remaining, feePips, aToB), NetInput(remaining, feePips);
            && Ahead(cur, s.next, aToB) && Ahead(s.next, target, aToB)
            && (s.next == target <==> Covers(l, cur, target, net, aToB))
            && Covers(l, cur, s.next, net, aToB)
            && (forall p :: Ahead(cur, p, aToB) && Ahead(p, target, aToB) && Covers(l, cur, p, net, aToB)
                            ==> Ahead(p, s.next, aToB))
            && (forall x: nat :: Covers(l, cur, s.next, x, aToB) <==> x >= s.amountIn)
            && (forall y: nat :: Releases(l, cur, s.next, y, aToB) <==> y <= s.amountOut)
  {
    var s, net := ComputeSwapStep(cur, target, l, remaining, feePips, aToB), NetInput(remaining, feePips);
    StopsInside(l, cur, target, net, aToB);
    CostIsLeast(l, cur, target, aToB, net);
    hide CostOf, YieldOf, Furthest, Covers, Releases;
    assert Ahead(cur, s.next, aToB) && Ahead(s.next, target, aToB);
    CostIsLeast(l, cur, s.next, aToB, net);
    forall p | Ahead(cur, p, aToB) && Ahead(p, target, aToB) && Covers(l, cur, p, net, aToB)
      ensures Ahead(p, s.next, aToB)
    {
      if s.next != target { FurthestIsCovered(l, cur, net, aToB, p); }
    }
    forall x: nat ensures Covers(l, cur, s.next, x, aToB) <==> x >= s.amountIn {
      CostIsLeast(l, cur, s.next, aToB, x);
    }
    forall y: nat ensures Releases(l, cur, s.next, y, aToB) <==> y <= s.amountOut {
      YieldIsGreatest(l, cur, s.next, aToB, y);
    }
  }

  /** The input after the fee is the greatest amount that leaves at least the fee rate's share of the input, in
      parts per million. */
  lemma NetInputIsGreatest(remaining: nat, feePips: nat, n: nat)
    requires feePips < 1_000_000
    ensures n * 1_000_000 <= remaining * (1_000_000 - feePips) <==> n <= NetInput(remaining, feePips)
  {
    GreatestQuotient(remaining * (PIPS_DENOM - feePips), PIPS_DENOM, n);
  }

  /** The remaining input, less its fee, is enough to move the price to `to`. */
  ghost predicate Affords(l: nat, cur: nat, to: nat, remaining: nat, feePips: nat, aToB: bool)
    requires feePips < 1_000_000
  {
    exists n: nat :: n * 1_000_000 <= remaining * (1_000_000 - feePips) && Covers(l, cur, to, n, aToB)
  }

  lemma AffordsIff(l: nat, cur: nat, to: nat, remaining: nat, feePips: nat, aToB: bool)
    requires feePips < 1_000_000
    ensures Affords(l, cur, to, remaining, feePips, aToB) <==> Covers(l, cur, to, NetInput(remaining, feePips), aToB)
  {
    var net := NetInput(remaining, feePips);
    NetInputIsGreatest(remaining, feePips, net);
    hide NetInput, Covers;
    if Affords(l, cur, to, remaining, feePips, aToB) {
      var n: nat :| n * 1_000_000 <= remaining * (1_000_000 - feePips) && Covers(l, cur, to, n, aToB);
      NetInputIsGreatest(remaining, feePips, n);
      CoversMonotone(l, cur, to, n, net, aToB);
    }
  }

  /** A whole step in terms of the fee rate and the curve alone: it goes as far towards the target as the
      fee-reduced input can afford, charges the least input for that move and pays the greatest output. */
  lemma StepGoesAsFarAsAffordable(cur: nat, target: nat, l: nat, remaining: nat, feePips: nat, aToB: bool)
    requires l > 0 && feePips < 1_000_000 && Ahead(cur, target, aToB)
    ensures var s := ComputeSwapStep(cur, target, l, remaining, feePips, aToB);
            && Ahead(cur, s.next, aToB) && Ahead(s.next, target, aToB)
            && (s.next == target <==> Affords(l, cur, target, remaining, feePips, aToB))
            && Affords(l, cur, s.next, remaining, feePips, aToB)
            && (forall p :: Ahead(cur, p, aToB) && Ahead(p, target, aToB) && Affords(l, cur, p, remaining, feePips, aToB)
                            ==> Ahead(p, s.next, aToB))
            && (forall x: nat :: Covers(l, cur, s.next, x, aToB) <==> x >= s.amountIn)
            && (forall y: nat :: Releases(l, cur, s.next, y, aToB) <==> y <= s.amountOut)
  {
    StepSound(cur, target, l, remaining, feePips, aToB);
    var s := ComputeSwapStep(cur, target, l, remaining, feePips, aToB);
    hide ComputeSwapStep, NetInput, Covers, Releases, Affords;
    AffordsIff(l, cur, target, remaining, feePips, aToB);
    AffordsIff(l, cur, s.next, remaining, feePips, aToB);
    forall p | Ahead(cur, p, aToB) && Ahead(p, target, aToB) && Affords(l, cur, p, remaining, feePips, aToB)
      ensures Ahead(p, s.next, aToB)
    {
      AffordsIff(l, cur, p, remaining, feePips, aToB);
    }
  }

  /** Exact accounting of a step: it never takes more than remains, a step that stops inside the range
      takes all of it, and a step that reaches the target takes the least fee that is at least the
      fee rate's share of the gross input. */
  lemma StepAccounts(cur: nat, target: nat, l: nat, remaining: nat, feePips: nat, aToB: bool)
    requires l > 0 && feePips < PIPS_DENOM && Ahead(cur, target, aToB)
    ensures var s := ComputeSwapStep(cur, target, l, remaining, feePips, aToB);
            && s.amountIn + s.fee <= remaining
            && (s.next != target ==> s.amountIn + s.fee == remaining)
            && (s.next == target ==>
                  forall f: nat :: f * 1_000_000 >= (s.amountIn + f) * feePips <==> f >= s.fee)
  {
    var s, net := ComputeSwapStep(cur, target, l, remaining, feePips, aToB), NetInput(remaining, feePips);
    StopsInside(l, cur, target, net, aToB);
    NetInputBounds(remaining, feePips);
    hide CostOf, YieldOf, Furthest, NetInput;
    if s.next == target {
      LeastFee(s.amountIn, net, remaining, feePips);
    }
  }

  lemma LeastFee(amountIn: nat, net: nat, remaining: nat, feePips: nat)
    requires feePips < PIPS_DENOM && amountIn <= net
    requires net * PIPS_DENOM <= remaining * (PIPS_DENOM - feePips)
    ensures var fee := CeilDiv(amountIn * feePips, PIPS_DENOM - feePips);
            && amountIn + fee <= remaining
            && (forall f: nat :: f * PIPS_DENOM >= (amountIn + f) * feePips <==> f >= fee)
  {
    var keep := PIPS_DENOM - feePips;
    forall f: nat ensures f * PIPS_DENOM >= (amountIn + f) * feePips <==> f >= CeilDiv(amountIn * feePips, keep) {
      FeeCovers(amountIn, f, feePips, keep);
    }
    FeeFits(amountIn, net, remaining, feePips, keep);
    hide *;
    LeastQuotient(amountIn * feePips, keep, remaining - amountIn);
  }

  lemma FeeFits(amountIn: nat, net: nat, remaining: nat, feePips: nat, keep: nat)
    requires keep > 0 && keep + feePips == PIPS_DENOM && amountIn <= net
    requires net * PIPS_DENOM <= remaining * keep
    ensures amountIn <= remaining && (remaining - amountIn) * keep >= amountIn * feePips >= 0
  {
    assert amountIn * keep + amountIn * feePips == amountIn * PIPS_DENOM;
    MulNonNeg(amountIn, feePips);
    CancelLe(amountIn, remaining, keep);
    assert (remaining - amountIn) * keep == remaining * keep - amountIn * keep;
  }

  lemma FeeCovers(amountIn: nat, f: nat, feePips: nat, keep: nat)
    requires keep > 0 && keep + feePips == PIPS_DENOM
    ensures f * PIPS_DENOM >= (amountIn + f) * feePips <==> f >= CeilDiv(amountIn * feePips, keep)
  {
    assert (amountIn + f) * feePips == amountIn * feePips + f * feePips;
    assert f * PIPS_DENOM == f * keep + f * feePips;
    MulNonNeg(amountIn, feePips);
    hide *;
    LeastQuotient(amountIn * feePips, keep, f);
  }
}
