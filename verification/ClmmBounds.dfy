/** What holds of every quote: the curve is never overpaid, input is fully accounted for, the marginal
    price bounds the output, and output and feasibility are monotone in the input. */
module ClmmBounds {
  import opened Arith
  import opened ClmmStep
  import opened ClmmQuote

  // --- one move along the curve ---

  /** A covered input and a released output never take the virtual reserves below the curve:
      `x = L * Q64 / cur` and `y = L * cur / Q64` keep their product, stated without division. */
  lemma CurveKept(l: nat, cur: nat, to: nat, amountIn: nat, amountOut: nat, aToB: bool)
    requires Ahead(cur, to, aToB)
    requires Covers(l, cur, to, amountIn, aToB) && Releases(l, cur, to, amountOut, aToB)
    ensures if aToB then (l * Q64 + amountIn * cur) * (l * cur - amountOut * Q64) >= (l * Q64) * (l * cur)
            else (l * cur + amountIn * Q64) * (l * Q64 - amountOut * cur) >= (l * Q64) * (l * cur)
  {
    if aToB {
      CurveKept0(l * Q64, l, cur, to, amountIn, amountOut);
    } else {
      CurveKept1(l * Q64, l, cur, to, amountIn, amountOut);
    }
  }

  lemma CurveKept0(s: nat, l: nat, cur: nat, to: nat, amountIn: nat, amountOut: nat)
    requires 0 < to <= cur && amountIn * (cur * to) >= s * (cur - to) && amountOut * Q64 <= l * (cur - to)
    ensures (s + amountIn * cur) * (l * cur - amountOut * Q64) >= s * (l * cur)
  {
    var x, y := s + amountIn * cur, l * cur - amountOut * Q64;
    assert x * to >= s * cur by {
      assert x * to == s * to + amountIn * (cur * to);
      assert s * (cur - to) == s * cur - s * to;
    }
    assert y >= l * to by { assert l * (cur - to) == l * cur - l * to; }
    MulNonNeg(amountIn, cur);
    MulLe(l * to, y, x);
    MulLe(s * cur, x * to, l);
    assert (l * to) * x == (x * to) * l;
    assert (s * cur) * l == s * (l * cur);
  }

  lemma CurveKept1(s: nat, l: nat, cur: nat, to: nat, amountIn: nat, amountOut: nat)
    requires 0 < cur <= to && amountIn * Q64 >= l * (to - cur) && amountOut * (to * cur) <= s * (to - cur)
    ensures (l * cur + amountIn * Q64) * (s - amountOut * cur) >= s * (l * cur)
  {
    var x, y := l * cur + amountIn * Q64, s - amountOut * cur;
    assert x >= l * to by { assert l * (to - cur) == l * to - l * cur; }
    assert y * to >= s * cur by {
      assert y * to == s * to - amountOut * (to * cur);
      assert s * (to - cur) == s * to - s * cur;
    }
    assert y >= 0 by { MulNonNeg(s, cur); CancelLe(0, y, to); }
    MulLe(l * to, x, y);
    MulLe(s * cur, y * to, l);
    assert (l * to) * y == (y * to) * l;
    assert (s * cur) * l == s * (l * cur);
  }

  /** No step pays above the curve of its range. */
  lemma StepKeepsCurve(cur: nat, target: nat, l: nat, remaining: nat, feePips: nat, aToB: bool)
    requires l > 0 && feePips < PIPS_DENOM && Ahead(cur, target, aToB)
    ensures var s := ComputeSwapStep(cur, target, l, remaining, feePips, aToB);
            if aToB then (l * Q64 + s.amountIn * cur) * (l * cur - s.amountOut * Q64) >= (l * Q64) * (l * cur)
            else (l * cur + s.amountIn * Q64) * (l * Q64 - s.amountOut * cur) >= (l * Q64) * (l * cur)
  {
    StepSound(cur, target, l, remaining, feePips, aToB);
    var s := ComputeSwapStep(cur, target, l, remaining, feePips, aToB);
    hide *;
    CurveKept(l, cur, s.next, s.amountIn, s.amountOut, aToB);
  }

  /** `gain` out for `spent` in is no better than the marginal price at `price`. */
  predicate Bounded(gain: int, spent: int, price: nat, aToB: bool) {
    if aToB then gain * (Q64 * Q64) <= spent * (price * price)
    else gain * (price * price) <= spent * (Q64 * Q64)
  }

  lemma MoveBounded(l: nat, cur: nat, to: nat, amountIn: nat, amountOut: nat, aToB: bool)
    requires Ahead(cur, to, aToB)
    requires Covers(l, cur, to, amountIn, aToB) && Releases(l, cur, to, amountOut, aToB)
    ensures Bounded(amountOut, amountIn, cur, aToB)
  {
    if aToB {
      assert (l * Q64) * (cur - to) == (l * (cur - to)) * Q64;
      MulLe(to, cur, cur);
      MulLe(cur * to, cur * cur, amountIn);
    } else {
      assert (l * Q64) * (to - cur) == (l * (to - cur)) * Q64;
      MulLe(cur, to, cur);
      MulLe(cur * cur, to * cur, amountOut);
    }
  }

  lemma BoundedAdd(g1: int, s1: int, price: nat, g2: int, s2: nat, next: nat, aToB: bool)
    requires Bounded(g1, s1, price, aToB) && Bounded(g2, s2, next, aToB)
    requires Ahead(price, next, aToB) && g2 >= 0
    ensures Bounded(g1 + g2, s1 + s2, price, aToB)
  {
    if aToB {
      MulLe(next, price, next);
      MulLe(next, price, price);
      MulLe(next * next, price * price, s2);
      assert (s1 + s2) * (price * price) == s1 * (price * price) + s2 * (price * price);
    } else {
      MulLe(price, next, price);
      MulLe(price, next, next);
      MulLe(price * price, next * next, g2);
      assert (g1 + g2) * (price * price) == g1 * (price * price) + g2 * (price * price);
    }
  }

  /** Spending more at the same price never helps. */
  lemma BoundedSlack(gain: int, spent: nat, more: nat, price: nat, aToB: bool)
    requires Bounded(gain, spent, price, aToB) && spent <= more
    ensures Bounded(gain, more, price, aToB)
  {
    MulLe(spent, more, price * price);
  }

  // --- one pass of the loop ---

  lemma AdvanceFacts(c: Cursor, target: nat, feePips: nat, aToB: bool)
    requires c.liquidity > 0 && feePips < PIPS_DENOM && Ahead(c.price, target, aToB)
    ensures var m := Advance(c, target, feePips, aToB);
            var s := ComputeSwapStep(c.price, target, c.liquidity, c.remaining, feePips, aToB);
            && Ahead(c.price, m.price, aToB) && Ahead(m.price, target, aToB)
            && m.remaining == c.remaining - s.amountIn - s.fee
            && m.out == c.out + s.amountOut
            && (m.price != target ==> m.remaining == 0)
            && Bounded(m.out - c.out, c.remaining - m.remaining, c.price, aToB)
  {
    var s := ComputeSwapStep(c.price, target, c.liquidity, c.remaining, feePips, aToB);
    StepSound(c.price, target, c.liquidity, c.remaining, feePips, aToB);
    StepAccounts(c.price, target, c.liquidity, c.remaining, feePips, aToB);
    MoveBounded(c.liquidity, c.price, s.next, s.amountIn, s.amountOut, aToB);
    hide ComputeSwapStep, Covers, Releases, NetInput;
    BoundedSlack(s.amountOut, s.amountIn, s.amountIn + s.fee, c.price, aToB);
  }

  lemma YieldMonotone(l: nat, cur: nat, near: nat, far: nat, y: nat, aToB: bool)
    requires Ahead(cur, near, aToB) && Ahead(near, far, aToB) && Releases(l, cur, near, y, aToB)
    ensures Releases(l, cur, far, y, aToB)
  {
    if aToB { MulLe(cur - near, cur - far, l); } else { YieldMonotoneUp(l * Q64, cur, near, far, y); }
  }

  lemma YieldMonotoneUp(s: nat, cur: nat, near: nat, far: nat, y: nat)
    requires 0 < cur <= near <= far && y * (near * cur) <= s * (near - cur)
    ensures y * (far * cur) <= s * (far - cur)
  {
    var w := s - y * cur;
    MulNonNeg(s, cur);
    assert near * w == s * near - y * (near * cur) && s * (near - cur) == s * near - s * cur;
    if w < 0 { MulLt(w, 0, near); }
    MulLe(near, far, w);
    assert far * w == s * far - y * (far * cur) && s * (far - cur) == s * far - s * cur;
  }

  /** More input at a lower fee moves at least as far, pays at least as much and leaves at least as much. */
  lemma AdvanceMonotone(c: Cursor, d: Cursor, target: nat, higher: nat, lower: nat, aToB: bool)
    requires c.liquidity > 0 && lower <= higher < PIPS_DENOM && Ahead(c.price, target, aToB)
    requires c.price == d.price && c.liquidity == d.liquidity && c.remaining <= d.remaining
    ensures var m, n := Advance(c, target, higher, aToB), Advance(d, target, lower, aToB);
            && m.out - c.out <= n.out - d.out
            && m.remaining <= n.remaining
            && (m.price == target ==> n.price == target)
  {
    var m, n := Advance(c, target, higher, aToB), Advance(d, target, lower, aToB);
    var s := ComputeSwapStep(c.price, target, c.liquidity, c.remaining, higher, aToB);
    var t := ComputeSwapStep(d.price, target, d.liquidity, d.remaining, lower, aToB);
    StepSound(c.price, target, c.liquidity, c.remaining, higher, aToB);
    StepSound(d.price, target, d.liquidity, d.remaining, lower, aToB);
    AdvanceFacts(c, target, higher, aToB);
    AdvanceFacts(d, target, lower, aToB);
    NetInputMonotone(c.remaining, d.remaining, higher, lower);
    ChargeAtTarget(c.price, target, c.liquidity, c.remaining, d.remaining, higher, lower, aToB);
    hide NetInput;
    CoversMonotone(c.liquidity, c.price, s.next, NetInput(c.remaining, higher), NetInput(d.remaining, lower), aToB);
    hide Covers, Releases, ComputeSwapStep;
    assert Ahead(s.next, t.next, aToB);
    YieldMonotone(c.liquidity, c.price, s.next, t.next, s.amountOut, aToB);
  }

  /** Getting to the target costs the same, and the fee on it grows with the rate. */
  lemma ChargeAtTarget(cur: nat, target: nat, l: nat, less: nat, more: nat, higher: nat, lower: nat, aToB: bool)
    requires l > 0 && lower <= higher < PIPS_DENOM && Ahead(cur, target, aToB)
    ensures var s := ComputeSwapStep(cur, target, l, less, higher, aToB);
            var t := ComputeSwapStep(cur, target, l, more, lower, aToB);
            s.next == target && t.next == target ==> s.amountIn == t.amountIn && s.fee >= t.fee
  {
    FeeGrows(CostOf(l, cur, target, aToB), higher, lower);
    hide CostOf, YieldOf, Furthest, NetInput, CeilDiv;
  }

  lemma FeeGrows(amountIn: nat, higher: nat, lower: nat)
    requires lower <= higher < PIPS_DENOM
    ensures amountIn * lower >= 0 && amountIn * higher >= 0
    ensures CeilDiv(amountIn * lower, PIPS_DENOM - lower) <= CeilDiv(amountIn * higher, PIPS_DENOM - higher)
  {
    MulNonNeg(amountIn, lower);
    MulLe(lower, higher, amountIn);
    var keep, more := PIPS_DENOM - higher, PIPS_DENOM - lower;
    var fee := CeilDiv(amountIn * higher, keep);
    LeastQuotient(amountIn * higher, keep, fee);
    MulLe(keep, more, fee);
    LeastQuotient(amountIn * lower, more, fee);
  }

  // --- whole walks ---

  /** One turn of a walk that goes on. */
  lemma WalkTurns(bs: seq<Tick>, c: Cursor, feePips: nat, aToB: bool)
    requires feePips < PIPS_DENOM && c.price > 0 && Travel(c.price, bs, aToB)
    requires c.remaining != 0 && bs != [] && c.liquidity != 0
    ensures Ahead(c.price, bs[0].sqrtPrice, aToB) && Travel(bs[0].sqrtPrice, bs[1..], aToB)
    ensures var m := Advance(c, bs[0].sqrtPrice, feePips, aToB);
            && (m.price != bs[0].sqrtPrice ==> Walk(bs, c, feePips, aToB) == m)
            && (m.price == bs[0].sqrtPrice ==>
                  Walk(bs, c, feePips, aToB)
                  == Walk(bs[1..], m.(liquidity := ApplyNet(c.liquidity, bs[0].net, aToB)), feePips, aToB))
  {
    hide Advance, ApplyNet;
  }

  lemma BoundedNothing(price: nat, aToB: bool)
    ensures Bounded(0, 0, price, aToB)
  {}

  /** A walk spends what it takes, moves only ahead and stays below the marginal price. */
  lemma {:induction false} WalkBounded(bs: seq<Tick>, c: Cursor, feePips: nat, aToB: bool)
    requires feePips < PIPS_DENOM && c.price > 0 && Travel(c.price, bs, aToB)
    ensures var end := Walk(bs, c, feePips, aToB);
            && end.remaining <= c.remaining && end.out >= c.out
            && Ahead(c.price, end.price, aToB)
            && Bounded(end.out - c.out, c.remaining - end.remaining, c.price, aToB)
    decreases |bs|
  {
    if c.remaining != 0 && bs != [] && c.liquidity != 0 {
      var m := Advance(c, bs[0].sqrtPrice, feePips, aToB);
      WalkTurns(bs, c, feePips, aToB);
      AdvanceFacts(c, bs[0].sqrtPrice, feePips, aToB);
      hide Advance, ComputeSwapStep, ApplyNet, Bounded, Walk, Travel;
      if m.price == bs[0].sqrtPrice {
        var next := m.(liquidity := ApplyNet(c.liquidity, bs[0].net, aToB));
        WalkBounded(bs[1..], next, feePips, aToB);
        var end := Walk(bs[1..], next, feePips, aToB);
        BoundedAdd(m.out - c.out, c.remaining - m.remaining, c.price,
                   end.out - m.out, m.remaining - end.remaining, m.price, aToB);
      }
    } else {
      BoundedNothing(c.price, aToB);
      hide Bounded;
    }
  }

  /** A larger input that is used up in the known ranges makes every smaller one be used up, at the same or a
      higher fee, for no more output. */
  lemma {:induction false} WalkMonotone(bs: seq<Tick>, c: Cursor, d: Cursor, higher: nat, lower: nat, aToB: bool)
    requires lower <= higher < PIPS_DENOM && c.price > 0 && Travel(c.price, bs, aToB)
    requires c.price == d.price && c.liquidity == d.liquidity && c.remaining <= d.remaining
    requires Walk(bs, d, lower, aToB).remaining == 0
    ensures Walk(bs, c, higher, aToB).remaining == 0
    ensures Walk(bs, c, higher, aToB).out - c.out <= Walk(bs, d, lower, aToB).out - d.out
    decreases |bs|
  {
    if d.remaining != 0 {
      WalkBounded(bs, d, lower, aToB);
      if c.remaining != 0 {
        var target := bs[0].sqrtPrice;
        var m, n := Advance(c, target, higher, aToB), Advance(d, target, lower, aToB);
        AdvanceMonotone(c, d, target, higher, lower, aToB);
        AdvanceFacts(c, target, higher, aToB);
        AdvanceFacts(d, target, lower, aToB);
        hide Advance, ComputeSwapStep, Bounded;
        if n.price == target {
          var l := ApplyNet(c.liquidity, bs[0].net, aToB);
          WalkBounded(bs[1..], n.(liquidity := l), lower, aToB);
          if m.price == target {
            WalkMonotone(bs[1..], m.(liquidity := l), n.(liquidity := l), higher, lower, aToB);
          }
        }
      }
    }
  }

  // --- whole quotes ---

  lemma FinalFacts(state: ClmmState, amountIn: nat, aToB: bool)
    requires state.Valid() && state.liquidity > 0 && state.feePips < PIPS_DENOM
    ensures var end := Final(state, amountIn, aToB);
            end.remaining <= amountIn && Bounded(end.out, amountIn, state.sqrtPrice, aToB)
  {
    var start := Cursor(state.sqrtPrice, state.liquidity, amountIn, 0);
    if state.ticks == [] {
      AdvanceFacts(start, PriceBound(aToB), state.feePips, aToB);
    } else {
      CrossableTravels(state.ticks, state.sqrtPrice, aToB);
      WalkBounded(Crossable(state.ticks, state.sqrtPrice, aToB), start, state.feePips, aToB);
    }
    var end := Final(state, amountIn, aToB);
    hide Advance, Walk, Final, Crossable;
    if amountIn > 0 || state.ticks != [] {
      BoundedSlack(end.out, amountIn - end.remaining, amountIn, state.sqrtPrice, aToB);
    }
  }

  /** Whatever the tick table, no quote beats the marginal price before the trade. */
  lemma QuoteBelowMarginalPrice(state: ClmmState, amountIn: nat, aToB: bool)
    requires state.Valid() && Quote(state, amountIn, aToB).Some?
    ensures Bounded(Quote(state, amountIn, aToB).value, amountIn, state.sqrtPrice, aToB)
  {
    FinalFacts(state, amountIn, aToB);
  }

  /** Quoting there and back on one snapshot never returns more than was put in. */
  lemma RoundTripNeverGains(state: ClmmState, amountIn: nat, aToB: bool)
    requires state.Valid() && Quote(state, amountIn, aToB).Some?
    requires Quote(state, Quote(state, amountIn, aToB).value, !aToB).Some?
    ensures Quote(state, Quote(state, amountIn, aToB).value, !aToB).value <= amountIn
  {
    var there := Quote(state, amountIn, aToB).value;
    var back := Quote(state, there, !aToB).value;
    QuoteBelowMarginalPrice(state, amountIn, aToB);
    QuoteBelowMarginalPrice(state, there, !aToB);
    hide Quote;
    var c := state.sqrtPrice;
    assert c * c > 0 by { MulLt(0, c, c); }
    if aToB { CancelLe(back, amountIn, c * c); } else { CancelLe(back, amountIn, Q64 * Q64); }
  }

  /** A quote stays feasible, for no more output, when the input falls or the fee rises to another legal one. */
  lemma QuoteFeeMonotone(state: ClmmState, higher: nat, less: nat, more: nat, aToB: bool)
    requires state.Valid() && 0 < less <= more && state.feePips <= higher < PIPS_DENOM
    requires Quote(state, more, aToB).Some?
    ensures state.(feePips := higher).Valid()
    ensures Quote(state.(feePips := higher), less, aToB).Some?
    ensures Quote(state.(feePips := higher), less, aToB).value <= Quote(state, more, aToB).value
  {
    var c := Cursor(state.sqrtPrice, state.liquidity, less, 0);
    var d := Cursor(state.sqrtPrice, state.liquidity, more, 0);
    if state.ticks == [] {
      AdvanceMonotone(c, d, PriceBound(aToB), higher, state.feePips, aToB);
    } else {
      CrossableTravels(state.ticks, state.sqrtPrice, aToB);
      WalkMonotone(Crossable(state.ticks, state.sqrtPrice, aToB), c, d, higher, state.feePips, aToB);
    }
    hide Advance, Walk, Crossable;
  }

  /** Feasibility is downward closed and the output is monotone on it. */
  lemma QuoteMonotone(state: ClmmState, less: nat, more: nat, aToB: bool)
    requires state.Valid() && 0 < less <= more && Quote(state, more, aToB).Some?
    ensures Quote(state, less, aToB).Some?
    ensures Quote(state, less, aToB).value <= Quote(state, more, aToB).value
  {
    QuoteFeeMonotone(state, state.feePips, less, more, aToB);
    hide Quote;
  }

  // --- accounting ---

  /** One range the walk went through, and the step it made there. */
  datatype Leg = Leg(cur: nat, target: nat, liquidity: nat, step: Step)

  ghost function Legs(bs: seq<Tick>, c: Cursor, feePips: nat, aToB: bool): seq<Leg>
    requires feePips < PIPS_DENOM && Travel(c.price, bs, aToB)
    decreases |bs|
  {
    if c.remaining == 0 || bs == [] || c.liquidity == 0 then []
    else
      var target := bs[0].sqrtPrice;
      var moved := Advance(c, target, feePips, aToB);
      var leg := Leg(c.price, target, c.liquidity,
                     ComputeSwapStep(c.price, target, c.liquidity, c.remaining, feePips, aToB));
      if moved.price != target then [leg]
      else [leg] + Legs(bs[1..], moved.(liquidity := ApplyNet(c.liquidity, bs[0].net, aToB)), feePips, aToB)
  }

  ghost function Taken(legs: seq<Leg>): nat {
    if legs == [] then 0 else legs[0].step.amountIn + legs[0].step.fee + Taken(legs[1..])
  }

  ghost function Paid(legs: seq<Leg>): nat {
    if legs == [] then 0 else legs[0].step.amountOut + Paid(legs[1..])
  }

  /** Every unit of input is charged, taken as a fee or still there; the saturating subtraction of the
      loop never saturates. */
  lemma {:induction false} WalkAccounts(bs: seq<Tick>, c: Cursor, feePips: nat, aToB: bool)
    requires feePips < PIPS_DENOM && Travel(c.price, bs, aToB)
    ensures var end, legs := Walk(bs, c, feePips, aToB), Legs(bs, c, feePips, aToB);
            c.remaining == Taken(legs) + end.remaining && end.out == c.out + Paid(legs)
    decreases |bs|
  {
    if c.remaining != 0 && bs != [] && c.liquidity != 0 {
      var target := bs[0].sqrtPrice;
      var m := Advance(c, target, feePips, aToB);
      AdvanceFacts(c, target, feePips, aToB);
      hide Advance, ComputeSwapStep, Bounded;
      if m.price == target {
        WalkAccounts(bs[1..], m.(liquidity := ApplyNet(c.liquidity, bs[0].net, aToB)), feePips, aToB);
      }
    }
  }

  /** What the legs of a walk are, leg by leg: each makes the engine's step from where the one before ended towards
      the next boundary, with the liquidity after crossing and the input that is left; all but the last reach
      their boundary. */
  ghost predicate Chained(bs: seq<Tick>, c: Cursor, legs: seq<Leg>, feePips: nat, aToB: bool)
    requires feePips < PIPS_DENOM
  {
    |legs| <= |bs| && forall i :: 0 <= i < |legs| ==> LegIs(bs, c, legs, i, feePips, aToB)
  }

  ghost predicate LegIs(bs: seq<Tick>, c: Cursor, legs: seq<Leg>, i: nat, feePips: nat, aToB: bool)
    requires feePips < PIPS_DENOM && i < |legs| <= |bs|
  {
    var leg, left := legs[i], c.remaining - Taken(legs[..i]);
    && leg.target == bs[i].sqrtPrice
    && leg.cur == (if i == 0 then c.price else bs[i - 1].sqrtPrice)
    && leg.liquidity == (if i == 0 then c.liquidity else ApplyNet(legs[i - 1].liquidity, bs[i - 1].net, aToB))
    && leg.liquidity > 0 && left > 0 && Ahead(leg.cur, leg.target, aToB)
    && leg.step == ComputeSwapStep(leg.cur, leg.target, leg.liquidity, left, feePips, aToB)
    && (i < |legs| - 1 ==> leg.step.next == leg.target)
  }

  /** Why a walk ended: its input is used up, its boundaries are, it stopped inside a range, or no liquidity is left. */
  ghost predicate Ended(bs: seq<Tick>, c: Cursor, legs: seq<Leg>, aToB: bool)
    requires |legs| <= |bs|
  {
    || c.remaining == Taken(legs) || |legs| == |bs|
    || (if legs == [] then c.liquidity == 0
        else var last := legs[|legs| - 1];
             last.step.next != last.target || ApplyNet(last.liquidity, bs[|legs| - 1].net, aToB) == 0)
  }

  lemma {:induction false} LegsChain(bs: seq<Tick>, c: Cursor, feePips: nat, aToB: bool)
    requires feePips < PIPS_DENOM && Travel(c.price, bs, aToB)
    ensures var legs := Legs(bs, c, feePips, aToB);
            Chained(bs, c, legs, feePips, aToB) && Ended(bs, c, legs, aToB)
    decreases |bs|
  {
    if c.remaining != 0 && bs != [] && c.liquidity != 0 {
      var m := Advance(c, bs[0].sqrtPrice, feePips, aToB);
      AdvanceFacts(c, bs[0].sqrtPrice, feePips, aToB);
      var legs := Legs(bs, c, feePips, aToB);
      var first := legs[0];
      assert Taken(legs[..0]) == 0;
      if m.price == bs[0].sqrtPrice {
        var next := m.(liquidity := ApplyNet(c.liquidity, bs[0].net, aToB));
        LegsChain(bs[1..], next, feePips, aToB);
        var rest := Legs(bs[1..], next, feePips, aToB);
        assert legs == [first] + rest;
        hide Advance, ComputeSwapStep, ApplyNet, Bounded, Legs, Travel;
        ChainExtends(bs, c, first, rest, next, feePips, aToB);
      } else {
        assert legs == [first];
        hide ApplyNet, Bounded, Legs, Travel;
      }
    }
  }

  lemma ChainExtends(bs: seq<Tick>, c: Cursor, first: Leg, rest: seq<Leg>, next: Cursor, feePips: nat, aToB: bool)
    requires feePips < PIPS_DENOM && bs != [] && c.remaining > 0 && c.liquidity > 0
    requires Ahead(c.price, bs[0].sqrtPrice, aToB)
    requires first == Leg(c.price, bs[0].sqrtPrice, c.liquidity,
                          ComputeSwapStep(c.price, bs[0].sqrtPrice, c.liquidity, c.remaining, feePips, aToB))
    requires first.step.next == first.target == next.price
    requires next.remaining == c.remaining - first.step.amountIn - first.step.fee
    requires next.liquidity == ApplyNet(c.liquidity, bs[0].net, aToB)
    requires Chained(bs[1..], next, rest, feePips, aToB) && Ended(bs[1..], next, rest, aToB)
    ensures Chained(bs, c, [first] + rest, feePips, aToB) && Ended(bs, c, [first] + rest, aToB)
  {
    var legs := [first] + rest;
    TakenHead(first, rest, |rest|);
    assert rest[..|rest|] == rest && legs[..|legs|] == legs;
    assert Taken(legs[..0]) == 0;
    hide ComputeSwapStep, ApplyNet, Taken;
    forall i | 0 <= i < |legs| ensures LegIs(bs, c, legs, i, feePips, aToB) {
      if i > 0 {
        assert LegIs(bs[1..], next, rest, i - 1, feePips, aToB);
        LegShifts(bs, c, first, rest, next, i, feePips, aToB);
      }
    }
  }

  lemma LegShifts(bs: seq<Tick>, c: Cursor, first: Leg, rest: seq<Leg>, next: Cursor, i: nat, feePips: nat, aToB: bool)
    requires feePips < PIPS_DENOM && 0 < i <= |rest| && |rest| + 1 <= |bs|
    requires first.target == bs[0].sqrtPrice == next.price && first.liquidity == c.liquidity
    requires next.remaining == c.remaining - first.step.amountIn - first.step.fee
    requires next.liquidity == ApplyNet(c.liquidity, bs[0].net, aToB)
    requires LegIs(bs[1..], next, rest, i - 1, feePips, aToB)
    ensures LegIs(bs, c, [first] + rest, i, feePips, aToB)
  {
    var legs := [first] + rest;
    TakenHead(first, rest, i - 1);
    assert legs[i] == rest[i - 1] && bs[1..][i - 1] == bs[i];
    if i > 1 { assert legs[i - 1] == rest[i - 2] && bs[1..][i - 2] == bs[i - 1]; }
    hide ComputeSwapStep, ApplyNet, Taken;
  }

  lemma TakenHead(first: Leg, rest: seq<Leg>, n: nat)
    requires n <= |rest|
    ensures Taken(([first] + rest)[..n + 1]) == first.step.amountIn + first.step.fee + Taken(rest[..n])
  {
    assert ([first] + rest)[..n + 1][1..] == rest[..n];
  }

  /** The ranges a quote over a tick table goes through. */
  ghost function QuoteLegs(state: ClmmState, amountIn: nat, aToB: bool): seq<Leg>
    requires state.Valid() && state.feePips < PIPS_DENOM
  {
    CrossableTravels(state.ticks, state.sqrtPrice, aToB);
    Legs(Crossable(state.ticks, state.sqrtPrice, aToB),
         Cursor(state.sqrtPrice, state.liquidity, amountIn, 0), state.feePips, aToB)
  }

  /** A pool with loaded ticks answers only when the whole input went into its ranges. */
  lemma QuoteAccounts(state: ClmmState, amountIn: nat, aToB: bool)
    requires state.Valid() && state.ticks != [] && Quote(state, amountIn, aToB).Some?
    ensures var legs := QuoteLegs(state, amountIn, aToB);
            Taken(legs) == amountIn && Paid(legs) == Quote(state, amountIn, aToB).value
  {
    CrossableTravels(state.ticks, state.sqrtPrice, aToB);
    WalkAccounts(Crossable(state.ticks, state.sqrtPrice, aToB),
                 Cursor(state.sqrtPrice, state.liquidity, amountIn, 0), state.feePips, aToB);
  }

  /** When the engine answers, and what. With loaded ticks: exactly when the whole input goes into its ranges and
      their outputs add up to a `u64`, which is then the answer. Without: one step towards the engine's price limit
      decides. Nothing, no liquidity and a fee of everything are refused. */
  lemma QuoteAnswersIff(state: ClmmState, amountIn: nat, aToB: bool)
    requires state.Valid()
    ensures amountIn == 0 || state.liquidity == 0 || state.feePips >= 1_000_000 ==> Quote(state, amountIn, aToB).None?
    ensures amountIn > 0 && state.liquidity > 0 && state.feePips < 1_000_000 && state.ticks != [] ==>
              var q, legs := Quote(state, amountIn, aToB), QuoteLegs(state, amountIn, aToB);
              && (q.Some? <==> Taken(legs) == amountIn && Paid(legs) <= 18_446_744_073_709_551_615)
              && (q.Some? ==> q.value == Paid(legs))
    ensures amountIn > 0 && state.liquidity > 0 && state.feePips < 1_000_000 && state.ticks == [] ==>
              var limit := if aToB then 65_536 else 0x100_0000_0000_0000_0000_0000_0000_0000;
              var q, s := Quote(state, amountIn, aToB),
                          ComputeSwapStep(state.sqrtPrice, limit, state.liquidity, amountIn, state.feePips, aToB);
              && (q.Some? <==> s.amountOut <= 18_446_744_073_709_551_615)
              && (q.Some? ==> q.value == s.amountOut)
  {
    if amountIn > 0 && state.liquidity > 0 && state.feePips < PIPS_DENOM && state.ticks != [] {
      CrossableTravels(state.ticks, state.sqrtPrice, aToB);
      WalkAccounts(Crossable(state.ticks, state.sqrtPrice, aToB),
                   Cursor(state.sqrtPrice, state.liquidity, amountIn, 0), state.feePips, aToB);
    }
    hide ComputeSwapStep, Walk, Legs, Crossable, Taken, Paid;
  }
}
