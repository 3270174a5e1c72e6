/** A single-range pool is the constant-product pool on its virtual reserves, up to rounding:
    the engine never quotes more, and less by a bounded number of units. */
module ClmmV2 {
  import opened Arith
  import opened ClmmStep
  import opened ClmmQuote
  import opened ClmmBounds
  import Amm

  /** `single_range`. */
  function SingleRange(sqrtPrice: nat, liquidity: nat, feePips: nat): ClmmState {
    ClmmState(sqrtPrice, liquidity, feePips, [])
  }

  /** `x = L * Q64 / C` and `y = L * C / Q64` exactly. */
  predicate VirtualReserves(x: nat, y: nat, c: nat, l: nat) {
    && 0 < x < TWO_64 && 0 < y < TWO_64 && 0 < l && MIN_SQRT_PRICE <= c <= MAX_SQRT_PRICE
    && x * c == l * Q64 && y * Q64 == l * c
  }

  /** The V2 quote for the same trade. */
  function V2Quote(amountIn: nat, x: nat, y: nat, feeBps: nat, aToB: bool): nat
    requires amountIn > 0 && x > 0 && y > 0 && feeBps < Amm.FEE_DENOM
  {
    if aToB then Amm.CurveOut(amountIn, x, y, feeBps) else Amm.CurveOut(amountIn, y, x, feeBps)
  }

  /** The input does not push the price to the engine's bound. */
  predicate StaysInside(amountIn: nat, c: nat, l: nat, feePips: nat, aToB: bool)
    requires feePips < PIPS_DENOM
  {
    !Covers(l, c, PriceBound(aToB), NetInput(amountIn, feePips), aToB)
  }

  lemma NetIsPaid(amountIn: nat, feeBps: nat)
    requires feeBps < Amm.FEE_DENOM
    ensures var net := NetInput(amountIn, 100 * feeBps);
            net * Amm.FEE_DENOM <= Amm.WithFee(amountIn, feeBps) < (net + 1) * Amm.FEE_DENOM
  {
    var paid := Amm.WithFee(amountIn, feeBps);
    assert amountIn * (PIPS_DENOM - 100 * feeBps) == 100 * paid;
  }

  /** The engine's answer for a single range is one step's output. */
  lemma SingleRangeStep(amountIn: nat, c: nat, l: nat, feePips: nat, aToB: bool) returns (s: Step)
    requires amountIn > 0 && l > 0 && feePips < PIPS_DENOM && MIN_SQRT_PRICE <= c <= MAX_SQRT_PRICE
    ensures var q := Quote(SingleRange(c, l, feePips), amountIn, aToB);
            q == if s.amountOut < TWO_64 then Some(s.amountOut) else None
    ensures s == ComputeSwapStep(c, PriceBound(aToB), l, amountIn, feePips, aToB)
  {
    s := ComputeSwapStep(c, PriceBound(aToB), l, amountIn, feePips, aToB);
    hide ComputeSwapStep;
  }

  /** The engine never quotes above the V2 pool on the same virtual reserves. */
  lemma SingleRangeNeverExceedsV2(amountIn: nat, x: nat, y: nat, feeBps: nat, c: nat, l: nat, aToB: bool)
    requires amountIn > 0 && feeBps < Amm.FEE_DENOM && VirtualReserves(x, y, c, l)
    ensures var q := Quote(SingleRange(c, l, 100 * feeBps), amountIn, aToB);
            q.Some? && q.value <= V2Quote(amountIn, x, y, feeBps, aToB)
  {
    var s := SingleRangeStep(amountIn, c, l, 100 * feeBps, aToB);
    var net, paid := NetInput(amountIn, 100 * feeBps), Amm.WithFee(amountIn, feeBps);
    StepSound(c, PriceBound(aToB), l, amountIn, 100 * feeBps, aToB);
    CurveKept(l, c, s.next, net, s.amountOut, aToB);
    NetIsPaid(amountIn, feeBps);
    hide Quote, ComputeSwapStep, NetInput, Amm.WithFee, Amm.CurveOut;
    if aToB {
      OnV2Curve(l * Q64, l * c, c, Q64, x, y, net, s.amountOut, paid);
      Amm.CurveOutGreatest(amountIn, x, y, feeBps, paid, s.amountOut);
    } else {
      OnV2Curve(l * c, l * Q64, Q64, c, y, x, net, s.amountOut, paid);
      Amm.CurveOutGreatest(amountIn, y, x, feeBps, paid, s.amountOut);
    }
  }

  /** The virtual-reserve inequality, divided by its scale and weakened to the V2 fee. */
  lemma OnV2Curve(sIn: nat, sOut: nat, uIn: nat, uOut: nat, rIn: nat, rOut: nat, net: nat, out: nat, paid: nat)
    requires uIn > 0 && uOut > 0 && rIn > 0 && sIn == rIn * uIn && sOut == rOut * uOut
    requires (sIn + net * uIn) * (sOut - out * uOut) >= sIn * sOut
    requires net * Amm.FEE_DENOM <= paid
    ensures (rIn * Amm.FEE_DENOM + paid) * (rOut - out) >= (rIn * Amm.FEE_DENOM) * rOut
  {
    var a, b := rIn + net, rOut - out;
    assert a * b >= rIn * rOut by {
      assert sIn + net * uIn == a * uIn;
      assert sOut - out * uOut == b * uOut;
      Unscale(a, b, rIn, rOut, uIn, uOut);
    }
    assert b >= 0 by { MulNonNeg(rIn, rOut); CancelLe(0, b, a); }
    FeeDepth(rIn, rOut, a, b, net, paid);
  }

  lemma Unscale(a: int, b: int, rIn: nat, rOut: nat, uIn: nat, uOut: nat)
    requires uIn > 0 && uOut > 0
    requires (a * uIn) * (b * uOut) >= (rIn * uIn) * (rOut * uOut)
    ensures a * b >= rIn * rOut
  {
    assert (a * uIn) * (b * uOut) == (a * b) * (uIn * uOut);
    assert (rIn * uIn) * (rOut * uOut) == (rIn * rOut) * (uIn * uOut);
    MulLt(0, uIn, uOut);
    CancelLe(rIn * rOut, a * b, uIn * uOut);
  }

  lemma FeeDepth(rIn: nat, rOut: nat, a: nat, b: nat, net: nat, paid: nat)
    requires a == rIn + net && net * Amm.FEE_DENOM <= paid && a * b >= rIn * rOut
    ensures (rIn * Amm.FEE_DENOM + paid) * b >= (rIn * Amm.FEE_DENOM) * rOut
  {
    MulLe(a * Amm.FEE_DENOM, rIn * Amm.FEE_DENOM + paid, b);
    assert (a * Amm.FEE_DENOM) * b == (a * b) * Amm.FEE_DENOM;
    assert (rIn * Amm.FEE_DENOM) * rOut == (rIn * rOut) * Amm.FEE_DENOM;
  }

  /** Inside the price bound the engine falls short of the V2 quote by less than
      `y / x + L / Q64 + 1` units from a to b, and by less than `x / y + x / C + 1` from b to a. */
  lemma SingleRangeCloseToV2(amountIn: nat, x: nat, y: nat, feeBps: nat, c: nat, l: nat, aToB: bool)
    requires amountIn > 0 && feeBps < Amm.FEE_DENOM && VirtualReserves(x, y, c, l)
    requires StaysInside(amountIn, c, l, 100 * feeBps, aToB)
    ensures var q := Quote(SingleRange(c, l, 100 * feeBps), amountIn, aToB);
            q.Some? &&
            var short := V2Quote(amountIn, x, y, feeBps, aToB) - q.value;
            if aToB then (short - 1) * (x * Q64) < y * Q64 + l * x
            else (short - 1) * (y * c) < x * c + x * y
  {
    SingleRangeNeverExceedsV2(amountIn, x, y, feeBps, c, l, aToB);
    var s := SingleRangeStep(amountIn, c, l, 100 * feeBps, aToB);
    var net, paid := NetInput(amountIn, 100 * feeBps), Amm.WithFee(amountIn, feeBps);
    var v := V2Quote(amountIn, x, y, feeBps, aToB);
    StepStopsAtFurthest(amountIn, c, l, 100 * feeBps, aToB);
    StepSound(c, PriceBound(aToB), l, amountIn, 100 * feeBps, aToB);
    NetIsPaid(amountIn, feeBps);
    assert !Releases(l, c, s.next, s.amountOut + 1, aToB);
    hide Quote, ComputeSwapStep, NetInput, Amm.WithFee, Furthest;
    if aToB {
      V2Ceiling(v, x, y, net, paid, x + net);
      FurthestDown(l, c, net, s.next, x, x + net);
      ShortfallDown(v, s.amountOut, x, y, c, l, net, s.next, x + net);
    } else {
      V2Ceiling(v, y, x, net, paid, y + net);
      FurthestUp(l, c, net, s.next, y, y + net);
      ShortfallUp(v, s.amountOut, x, y, c, l, net, s.next, y + net);
    }
  }

  /** The engine's own constant-product quote for the same trade. */
  function EngineV2Quote(amountIn: u64, x: u64, y: u64, feeBps: u64, aToB: bool): Option<u64> {
    if aToB then Amm.GetAmountOut(amountIn, x, y, feeBps) else Amm.GetAmountOut(amountIn, y, x, feeBps)
  }

  /** The engine's two models of one pool: as long as the constant-product quote stays inside `u128`, the single
      range never answers more than it, and inside the price bound it falls short by less than the units above. */
  lemma SingleRangeReducesToV2(amountIn: u64, x: u64, y: u64, feeBps: u64, c: nat, l: nat, aToB: bool)
    requires amountIn > 0 && feeBps < Amm.FEE_DENOM && VirtualReserves(x, y, c, l)
    requires Amm.OutFits(amountIn, if aToB then y else x, feeBps)
    ensures var q, v := Quote(SingleRange(c, l, 100 * feeBps), amountIn, aToB), EngineV2Quote(amountIn, x, y, feeBps, aToB);
            && q.Some? && v.Some? && q.value <= v.value
            && (StaysInside(amountIn, c, l, 100 * feeBps, aToB) ==>
                  var short := v.value - q.value;
                  if aToB then (short - 1) * (x * Q64) < y * Q64 + l * x
                  else (short - 1) * (y * c) < x * c + x * y)
  {
    if aToB { Amm.OutParity(amountIn, x, y, feeBps); } else { Amm.OutParity(amountIn, y, x, feeBps); }
    SingleRangeNeverExceedsV2(amountIn, x, y, feeBps, c, l, aToB);
    if StaysInside(amountIn, c, l, 100 * feeBps, aToB) { SingleRangeCloseToV2(amountIn, x, y, feeBps, c, l, aToB); }
    hide Quote, StaysInside, Amm.GetAmountOut, Amm.CurveOut, Amm.MoveGetAmountOut, Amm.OutFits;
  }

  lemma StepStopsAtFurthest(amountIn: nat, c: nat, l: nat, feePips: nat, aToB: bool)
    requires l > 0 && feePips < PIPS_DENOM && MIN_SQRT_PRICE <= c <= MAX_SQRT_PRICE
    requires StaysInside(amountIn, c, l, feePips, aToB)
    ensures ComputeSwapStep(c, PriceBound(aToB), l, amountIn, feePips, aToB).next
            == Furthest(l, c, NetInput(amountIn, feePips), aToB)
  {
    CostIsLeast(l, c, PriceBound(aToB), aToB, NetInput(amountIn, feePips));
    hide CostOf, YieldOf, Furthest, NetInput, Covers;
  }

  /** The V2 quote, bounded by a payment of one more whole unit. */
  lemma V2Ceiling(v: nat, rIn: nat, rOut: nat, net: nat, paid: nat, m: nat)
    requires m == rIn + net && v < rOut && paid < (net + 1) * Amm.FEE_DENOM
    requires (rIn * Amm.FEE_DENOM + paid) * (rOut - v) >= (rIn * Amm.FEE_DENOM) * rOut
    ensures v * m < (net + 1) * rOut
  {
    MulLt(paid, (net + 1) * Amm.FEE_DENOM, rOut - v);
    assert (rIn * Amm.FEE_DENOM + paid) * (rOut - v)
        == (rIn * Amm.FEE_DENOM) * rOut - (v * rIn) * Amm.FEE_DENOM + paid * (rOut - v);
    assert ((net + 1) * Amm.FEE_DENOM) * (rOut - v) == (net * rOut + rOut - v * net - v) * Amm.FEE_DENOM;
  }

  lemma FurthestDown(l: nat, c: nat, net: nat, next: nat, x: nat, m: nat)
    requires m == x + net && l > 0 && c > 0 && x > 0 && next == Furthest(l, c, net, true) && x * c == l * Q64
    ensures (next - 1) * m < x * c
  {
    if net != 0 {
      MulNonNeg(l * Q64, c);
      FurthestDownCore(l * Q64, c, net, next, x, m);
    } else {
      assert (c - 1) * x == x * c - x;
    }
  }

  lemma FurthestDownCore(s: nat, c: nat, net: nat, next: nat, x: nat, m: nat)
    requires c > 0 && net > 0 && s == x * c && m == x + net && s + net * c > 0 && s * c >= 0
    requires next == CeilDiv(s * c, s + net * c)
    ensures (next - 1) * m < x * c
  {
    LeastQuotient(s * c, s + net * c, next - 1);
    assert s + net * c == m * c;
    assert (next - 1) * (m * c) == ((next - 1) * m) * c;
    CancelLt((next - 1) * m, x * c, c);
  }

  lemma FurthestUp(l: nat, c: nat, net: nat, next: nat, y: nat, m: nat)
    requires m == y + net && l > 0 && c > 0 && next == Furthest(l, c, net, false) && y * Q64 == l * c
    ensures next >= c && y * (next + 1) > c * m
  {
    var k := net * Q64 / l;
    FloorBounds(net * Q64, l);
    hide *;
    FurthestUpCore(l, c, net, k, y);
  }

  lemma FurthestUpCore(l: nat, c: nat, net: nat, k: nat, y: nat)
    requires l > 0 && c > 0 && net * Q64 < (k + 1) * l && y * Q64 == l * c
    ensures y * (c + k + 1) > c * (y + net)
  {
    MulLt(net * Q64, (k + 1) * l, c);
    assert ((k + 1) * l) * c == (y * Q64) * (k + 1) by { assert ((k + 1) * l) * c == (l * c) * (k + 1); }
    assert (y * Q64) * (k + 1) == (y * (k + 1)) * Q64;
    assert (net * Q64) * c == (c * net) * Q64;
    assert y * (c + k + 1) == c * y + y * (k + 1);
    assert c * (y + net) == c * y + c * net;
  }

  /** `t` is small against `m`, hence against anything smaller. */
  lemma Shrink(t: int, m: nat, x: nat, bound: nat)
    requires t * m < bound && x <= m && 0 < bound
    ensures t * x < bound
  {
    if t > 0 { MulLe(x, m, t); } else { MulLe(t, 0, x); }
  }

  lemma ShortfallDown(v: nat, out: nat, x: nat, y: nat, c: nat, l: nat, net: nat, next: nat, m: nat)
    requires m == x + net && x > 0 && y > 0 && 0 < next <= c && y * Q64 == l * c
    requires v * m < (net + 1) * y
    requires (next - 1) * m < x * c
    requires (out + 1) * Q64 > l * (c - next)
    ensures (v - out - 1) * (x * Q64) < y * Q64 + l * x
  {
    MovedDown(c, next, x, net, m);
    OutputDown((out + 1) * Q64, l, c - next, m, c, net, y * Q64);
    GapDown(v, (out + 1) * Q64, l, m, net, y);
    UnfoldDown(v - out - 1, x, l, m, y * Q64);
  }

  lemma UnfoldDown(w: int, x: nat, l: nat, m: nat, bound: nat)
    requires 0 < bound && x <= m && (w * Q64 - l) * m < bound
    ensures w * (x * Q64) < bound + l * x
  {
    Shrink(w * Q64 - l, m, x, bound);
    assert (w * Q64 - l) * x == w * (x * Q64) - l * x;
  }

  lemma MovedDown(c: nat, next: nat, x: nat, net: nat, m: nat)
    requires m == x + net && (next - 1) * m < x * c
    ensures (c - next + 1) * m > c * net
  {
    assert (c - next + 1) * m == c * m - (next - 1) * m;
    assert c * m == x * c + c * net;
  }

  lemma OutputDown(paid: nat, l: nat, k: nat, m: nat, c: nat, net: nat, lc: nat)
    requires m > 0 && paid > l * k && (k + 1) * m > c * net && lc == l * c
    ensures paid * m + l * m > lc * net
  {
    MulLt(l * k, paid, m);
    MulLe(c * net, (k + 1) * m, l);
    assert ((k + 1) * m) * l == (l * k) * m + l * m;
    assert (c * net) * l == lc * net;
  }

  lemma GapDown(v: nat, paid: nat, l: nat, m: nat, net: nat, y: nat)
    requires v * m < (net + 1) * y && paid * m + l * m > (y * Q64) * net
    ensures (v * Q64 - paid - l) * m < y * Q64
  {
    assert (v * Q64 - paid - l) * m == (v * m) * Q64 - paid * m - l * m;
    assert (y * Q64) * net == (net * y) * Q64;
    assert (net + 1) * y == net * y + y;
  }

  lemma ShortfallUp(v: nat, out: nat, x: nat, y: nat, c: nat, l: nat, net: nat, next: nat, m: nat)
    requires m == y + net && x > 0 && y > 0 && 0 < c <= next && x * c == l * Q64
    requires v * m < (net + 1) * x
    requires y * (next + 1) > c * m
    requires (out + 1) * (next * c) > (l * Q64) * (next - c)
    ensures (v - out - 1) * (y * c) < x * c + x * y
  {
    OutputUp(out + 1, x, c, next, l * Q64);
    var paid, u, g, vm := (out + 1) * next, x * next, x * y, v * m;
    GapUpQuote(vm, net, x, next, u);
    GapUpPaid(paid, u, x * c, m);
    GapUpPrice(c, m, x, y, next, u);
    GapUp(vm * next, paid * m, (x * c) * m, m, net, y, u, g);
    GapProduct(v, out + 1, m, x, next);
    UnfoldUp(v - out - 1, x, y, c, next, m, g);
  }

  lemma OutputUp(p: nat, x: nat, c: nat, next: nat, s: nat)
    requires c > 0 && s == x * c && p * (next * c) > s * (next - c)
    ensures p * next > x * next - x * c
  {
    assert s * (next - c) == (x * (next - c)) * c;
    assert p * (next * c) == (p * next) * c;
    CancelLt(x * (next - c), p * next, c);
    assert x * (next - c) == x * next - x * c;
  }

  lemma GapUpQuote(vm: int, net: nat, x: nat, next: nat, u: nat)
    requires next > 0 && vm < (net + 1) * x && u == x * next
    ensures vm * next < net * u + u
  {
    MulLt(vm, (net + 1) * x, next);
    assert ((net + 1) * x) * next == net * u + u;
  }

  lemma GapUpPaid(paid: int, u: int, xc: int, m: nat)
    requires m > 0 && paid > u - xc
    ensures paid * m > u * m - xc * m
  {
    MulLt(u - xc, paid, m);
    assert (u - xc) * m == u * m - xc * m;
  }

  lemma GapUpPrice(c: nat, m: nat, x: nat, y: nat, next: nat, u: nat)
    requires x > 0 && y * (next + 1) > c * m && u == x * next
    ensures (x * c) * m < u * y + x * y
  {
    MulLt(c * m, y * (next + 1), x);
    assert (y * (next + 1)) * x == u * y + x * y;
    assert (c * m) * x == (x * c) * m;
  }

  lemma GapUp(quoted: int, paid: int, price: int, m: nat, net: nat, y: nat, u: nat, g: nat)
    requires m == y + net && quoted < net * u + u && paid > u * m - price && price < u * y + g
    ensures quoted - paid - u < g
  {
    assert u * m == u * y + net * u;
  }

  lemma GapProduct(v: nat, p: nat, m: nat, x: nat, next: nat)
    ensures ((v - p) * m - x) * next == (v * m) * next - (p * next) * m - x * next
  {
    assert (v - p) * m == v * m - p * m;
    assert (v * m - p * m - x) * next == (v * m) * next - (p * m) * next - x * next;
    assert (p * m) * next == (p * next) * m;
  }

  lemma UnfoldUp(w: int, x: nat, y: nat, c: nat, next: nat, m: nat, g: nat)
    requires x > 0 && y > 0 && 0 < c <= next && y <= m && g == x * y
    requires (w * m - x) * next < g
    ensures w * (y * c) < x * c + g
  {
    MulLt(0, x, y);
    Shrink(w * m - x, next, c, g);
    assert (w * m - x) * c == (w * c) * m - x * c;
    MulNonNeg(x, c);
    Shrink(w * c, m, y, x * c + g);
    assert (w * c) * y == w * (y * c);
  }
}
