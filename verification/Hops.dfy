/** What one hop of a route is worth, whichever model prices it: bounded by the pool's price in the hop's own
    direction, and the same, up to known units, for a pool of either kind on the same reserves. */
module Hops {
  import opened Arith
  import opened ClmmStep
  import opened ClmmQuote
  import opened ClmmBounds
  import opened Cycles
  import opened Scanner
  import Amm
  import ClmmV2

  /** A constant-product hop pays less than the reserves' ratio, in its own direction. */
  lemma V2HopBelowPrice(p: PoolState, aToB: bool, amountIn: u64)
    requires p.kind.V2? && QuoteHop(p, aToB, amountIn).Some?
    ensures var out := QuoteHop(p, aToB, amountIn).value;
            if aToB then out * p.kind.reserveA <= amountIn * p.kind.reserveB
            else out * p.kind.reserveB <= amountIn * p.kind.reserveA
  {
    if aToB {
      Amm.BelowMarginalPrice(amountIn, p.kind.reserveA, p.kind.reserveB, p.kind.feeBps);
    } else {
      Amm.BelowMarginalPrice(amountIn, p.kind.reserveB, p.kind.reserveA, p.kind.feeBps);
    }
    hide Amm.GetAmountOut;
  }

  /** A concentrated-liquidity hop pays no more than the pool's price, in its own direction; the square root of
      the price is in units of 2^-64. */
  lemma ClmmHopBelowPrice(p: PoolState, aToB: bool, amountIn: u64)
    requires p.kind.Clmm? && p.kind.state.Valid() && QuoteHop(p, aToB, amountIn).Some?
    ensures var out, c := QuoteHop(p, aToB, amountIn).value, p.kind.state.sqrtPrice;
            if aToB then out * 0x1_0000_0000_0000_0000_0000_0000_0000_0000 <= amountIn * (c * c)
            else out * (c * c) <= amountIn * 0x1_0000_0000_0000_0000_0000_0000_0000_0000
  {
    QuoteBelowMarginalPrice(p.kind.state, amountIn, aToB);
    hide Quote;
  }

  /** A concentrated-liquidity hop through loaded ticks answers exactly when its whole input goes into the pool's
      ranges in the hop's direction, with what those ranges pay. */
  lemma ClmmHopAnswersIff(p: PoolState, aToB: bool, amountIn: u64)
    requires p.kind.Clmm? && p.kind.state.Valid() && p.kind.state.ticks != []
    ensures var q, state := QuoteHop(p, aToB, amountIn), p.kind.state;
            && (q.Some? ==> amountIn > 0 && state.liquidity > 0 && state.feePips < 1_000_000)
            && (amountIn > 0 && state.liquidity > 0 && state.feePips < 1_000_000 ==>
                  var legs := QuoteLegs(state, amountIn, aToB);
                  && (q.Some? <==> Taken(legs) == amountIn && Paid(legs) <= 18_446_744_073_709_551_615)
                  && (q.Some? ==> q.value == Paid(legs)))
  {
    QuoteAnswersIff(p.kind.state, amountIn, aToB);
    hide Quote, QuoteLegs;
  }

  /** The two models agree on one pool: a pool without ticks answers every hop, in either direction, with at most
      what the constant-product pool on its virtual reserves answers, and inside the price bound with less by at
      most the units of the two models' rounding. */
  lemma HopModelsAgree(p: PoolState, v2: PoolState, x: u64, y: u64, feeBps: u64, amountIn: u64, aToB: bool)
    requires p.kind.Clmm? && p.kind.state.ticks == [] && p.kind.state.feePips == 100 * feeBps && feeBps < 10_000
    requires ClmmV2.VirtualReserves(x, y, p.kind.state.sqrtPrice, p.kind.state.liquidity) && amountIn > 0
    requires v2 == p.(kind := V2(x, y, feeBps))
    requires Amm.OutFits(amountIn, if aToB then y else x, feeBps)
    ensures ValidPool(p) && QuoteHop(p, aToB, amountIn).Some? && QuoteHop(v2, aToB, amountIn).Some?
    ensures QuoteHop(p, aToB, amountIn).value <= QuoteHop(v2, aToB, amountIn).value
    ensures var c, l := p.kind.state.sqrtPrice, p.kind.state.liquidity;
            var short := QuoteHop(v2, aToB, amountIn).value - QuoteHop(p, aToB, amountIn).value;
            ClmmV2.StaysInside(amountIn, c, l, 100 * feeBps, aToB) ==>
              if aToB then (short - 1) * (x * Q64) < y * Q64 + l * x
              else (short - 1) * (y * c) < x * c + x * y
  {
    var c, l := p.kind.state.sqrtPrice, p.kind.state.liquidity;
    ClmmV2.SingleRangeReducesToV2(amountIn, x, y, feeBps, c, l, aToB);
    assert p.kind.state == ClmmV2.SingleRange(c, l, 100 * feeBps);
    hide Quote, Amm.GetAmountOut, Amm.OutFits, ClmmV2.StaysInside;
  }
}
