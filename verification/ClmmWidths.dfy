/** Where the engine's fixed widths are enough: every product of a step fits 256 bits and every result
    128 bits as long as liquidity stays below 2^72. */
module ClmmWidths {
  import opened Arith
  import opened ClmmStep
  import opened ClmmQuote
  import opened ClmmBounds
  import opened Liquidity

  const LIQUIDITY_BOUND: nat := 0x100_0000_0000_0000_0000

  predicate InBounds(price: nat) {
    MIN_SQRT_PRICE <= price <= MAX_SQRT_PRICE
  }

  /** What the delta, next-price and fee helpers multiply and add, inside `U256`. */
  predicate WideEnough(cur: nat, target: nat, l: nat, amount: nat) {
    && (l * Q64) * cur < TWO_256 && (l * Q64) * target < TWO_256 && cur * target < TWO_256
    && l * Q64 + amount * cur < TWO_256 && amount * Q64 < TWO_256 && amount * PIPS_DENOM < TWO_256
  }

  lemma ProductsFit(cur: nat, target: nat, l: nat, amount: nat)
    requires l < LIQUIDITY_BOUND && InBounds(cur) && InBounds(target) && amount < TWO_64
    ensures WideEnough(cur, target, l, amount)
  {
    MulLe(cur, MAX_SQRT_PRICE, l * Q64);
    MulLe(target, MAX_SQRT_PRICE, l * Q64);
    MulLe(l * Q64, (LIQUIDITY_BOUND - 1) * Q64, MAX_SQRT_PRICE);
    MulLe(cur, MAX_SQRT_PRICE, target);
    MulLe(cur, MAX_SQRT_PRICE, amount);
  }

  /** The charge for any move inside the bounds fits `u128`. */
  lemma CostFits(l: nat, cur: nat, to: nat, aToB: bool)
    requires l < LIQUIDITY_BOUND && InBounds(cur) && InBounds(to) && Ahead(cur, to, aToB)
    ensures CostOf(l, cur, to, aToB) < TWO_128
  {
    var x: nat := TWO_128 - 1;
    CostIsLeast(l, cur, to, aToB, x);
    hide CostOf;
    if aToB {
      MulLe(MIN_SQRT_PRICE, to, cur);
      MulLe(cur - to, cur, l * Q64);
      MulLe(l * Q64, x * MIN_SQRT_PRICE, cur);
    } else {
      MulLe(to - cur, MAX_SQRT_PRICE, l);
    }
  }

  /** So does everything a move inside the bounds can release. */
  lemma ReleasedFits(l: nat, cur: nat, to: nat, amount: nat, aToB: bool)
    requires l < LIQUIDITY_BOUND && InBounds(cur) && InBounds(to) && Ahead(cur, to, aToB)
    requires Releases(l, cur, to, amount, aToB)
    ensures amount < TWO_128
  {
    if aToB {
      MulLe(cur - to, MAX_SQRT_PRICE, l);
    } else {
      MulLe(to - cur, to, l * Q64);
      assert amount * (to * cur) == (amount * cur) * to;
      CancelLe(amount * cur, l * Q64, to);
      MulLe(MIN_SQRT_PRICE, cur, amount);
    }
  }

  /** Inside the bounds a step's narrowing casts and its additions are exact. */
  lemma StepFits(cur: nat, target: nat, l: nat, remaining: nat, feePips: nat, aToB: bool)
    requires 0 < l < LIQUIDITY_BOUND && feePips < PIPS_DENOM && remaining < TWO_64
    requires InBounds(cur) && InBounds(target) && Ahead(cur, target, aToB)
    ensures var s := ComputeSwapStep(cur, target, l, remaining, feePips, aToB);
            && CostOf(l, cur, target, aToB) < TWO_128
            && InBounds(s.next) && s.amountIn + s.fee < TWO_64 && s.amountOut < TWO_128
  {
    CostFits(l, cur, target, aToB);
    StepSound(cur, target, l, remaining, feePips, aToB);
    StepAccounts(cur, target, l, remaining, feePips, aToB);
    var s := ComputeSwapStep(cur, target, l, remaining, feePips, aToB);
    hide ComputeSwapStep, CostOf, Covers, Releases, NetInput;
    ReleasedFits(l, cur, s.next, s.amountOut, aToB);
  }

  // --- whole walks ---

  lemma ReleasesMore(l: nat, m: nat, cur: nat, to: nat, amount: nat, aToB: bool)
    requires l <= m && Ahead(cur, to, aToB) && Releases(l, cur, to, amount, aToB)
    ensures Releases(m, cur, to, amount, aToB)
  {
    if aToB { MulLe(l, m, cur - to); } else { MulLe(l * Q64, m * Q64, to - cur); }
  }

  lemma ReleasesCompose(m: nat, a: nat, b: nat, c: nat, x: nat, y: nat, aToB: bool)
    requires Ahead(a, b, aToB) && Ahead(b, c, aToB)
    requires Releases(m, a, b, x, aToB) && Releases(m, b, c, y, aToB)
    ensures Releases(m, a, c, x + y, aToB)
  {
    if aToB {
      assert m * (a - b) + m * (b - c) == m * (a - c);
    } else {
      ComposeUp(m * Q64, a, b, c, x, y);
    }
  }

  lemma ComposeUp(s: nat, a: nat, b: nat, c: nat, x: nat, y: nat)
    requires 0 < a <= b <= c && x * (b * a) <= s * (b - a) && y * (c * b) <= s * (c - b)
    ensures (x + y) * (c * a) <= s * (c - a)
  {
    ScaleUp(s, a, b, c, x);
    ScaleBack(s, a, b, c, y);
    assert ((x + y) * (c * a)) * b == (x * (b * a)) * c + (y * (c * b)) * a;
    assert (s * (b - a)) * c + (s * (c - b)) * a == (s * (c - a)) * b;
    CancelLe((x + y) * (c * a), s * (c - a), b);
  }

  lemma ScaleUp(s: nat, a: nat, b: nat, c: nat, x: nat)
    requires x * (b * a) <= s * (b - a)
    ensures (x * (b * a)) * c <= (s * (b - a)) * c
  {
    MulLe(x * (b * a), s * (b - a), c);
  }

  lemma ScaleBack(s: nat, a: nat, b: nat, c: nat, y: nat)
    requires y * (c * b) <= s * (c - b)
    ensures (y * (c * b)) * a <= (s * (c - b)) * a
  {
    MulLe(y * (c * b), s * (c - b), a);
  }

  ghost predicate AtMost(legs: seq<Leg>, m: nat) {
    forall leg :: leg in legs ==> leg.liquidity <= m
  }

  /** A walk through many ranges releases no more than one range with the deepest liquidity would for the
      same price move. */
  lemma {:induction false} WalkReleasesAtMost(bs: seq<Tick>, c: Cursor, feePips: nat, aToB: bool, m: nat)
    requires feePips < PIPS_DENOM && c.price > 0 && Travel(c.price, bs, aToB)
    requires AtMost(Legs(bs, c, feePips, aToB), m)
    ensures var end := Walk(bs, c, feePips, aToB);
            && Ahead(c.price, end.price, aToB) && end.out >= c.out
            && Releases(m, c.price, end.price, end.out - c.out, aToB)
    decreases |bs|
  {
    WalkBounded(bs, c, feePips, aToB);
    if c.remaining == 0 || bs == [] || c.liquidity == 0 {
      assert Releases(m, c.price, c.price, 0, aToB);
    } else {
      var legs := Legs(bs, c, feePips, aToB);
      var moved := Advance(c, bs[0].sqrtPrice, feePips, aToB);
      FirstRelease(c, bs[0].sqrtPrice, feePips, aToB);
      assert legs[0] in legs;
      hide Advance, ComputeSwapStep, Releases, Bounded;
      ReleasesMore(c.liquidity, m, c.price, moved.price, moved.out - c.out, aToB);
      if moved.price == bs[0].sqrtPrice {
        var next := moved.(liquidity := ApplyNet(c.liquidity, bs[0].net, aToB));
        assert legs[1..] == Legs(bs[1..], next, feePips, aToB);
        WalkReleasesAtMost(bs[1..], next, feePips, aToB, m);
        var end := Walk(bs[1..], next, feePips, aToB);
        ReleasesCompose(m, c.price, moved.price, end.price, moved.out - c.out, end.out - moved.out, aToB);
      }
    }
  }

  lemma FirstRelease(c: Cursor, target: nat, feePips: nat, aToB: bool)
    requires c.liquidity > 0 && feePips < PIPS_DENOM && Ahead(c.price, target, aToB)
    ensures var moved := Advance(c, target, feePips, aToB);
            && Ahead(c.price, moved.price, aToB) && moved.out >= c.out
            && Releases(c.liquidity, c.price, moved.price, moved.out - c.out, aToB)
  {
    StepSound(c.price, target, c.liquidity, c.remaining, feePips, aToB);
    hide ComputeSwapStep, Covers, Releases, NetInput;
  }

  lemma {:induction false} WalkStaysInBounds(bs: seq<Tick>, c: Cursor, feePips: nat, aToB: bool)
    requires feePips < PIPS_DENOM && InBounds(c.price) && Travel(c.price, bs, aToB)
    requires forall t :: t in bs ==> InBounds(t.sqrtPrice)
    ensures InBounds(Walk(bs, c, feePips, aToB).price)
    decreases |bs|
  {
    if c.remaining != 0 && bs != [] && c.liquidity != 0 {
      assert bs[0] in bs;
      var moved := Advance(c, bs[0].sqrtPrice, feePips, aToB);
      AdvanceFacts(c, bs[0].sqrtPrice, feePips, aToB);
      hide Advance, ComputeSwapStep, ApplyNet, Bounded;
      if moved.price == bs[0].sqrtPrice {
        WalkStaysInBounds(bs[1..], moved.(liquidity := ApplyNet(c.liquidity, bs[0].net, aToB)), feePips, aToB);
      }
    }
  }

  /** The accumulated output of a whole walk fits `u128`. */
  lemma WalkOutputFits(bs: seq<Tick>, c: Cursor, feePips: nat, aToB: bool)
    requires feePips < PIPS_DENOM && InBounds(c.price) && Travel(c.price, bs, aToB) && c.out == 0
    requires forall t :: t in bs ==> InBounds(t.sqrtPrice)
    requires AtMost(Legs(bs, c, feePips, aToB), LIQUIDITY_BOUND - 1)
    ensures Walk(bs, c, feePips, aToB).out < TWO_128
  {
    var end := Walk(bs, c, feePips, aToB);
    WalkReleasesAtMost(bs, c, feePips, aToB, LIQUIDITY_BOUND - 1);
    WalkStaysInBounds(bs, c, feePips, aToB);
    hide Walk, Releases;
    ReleasedFits(LIQUIDITY_BOUND - 1, c.price, end.price, end.out, aToB);
  }

  /** Everything the engine computes on a leg fits: its `U256` products, and its `u128` charge, payout and sums. */
  predicate LegFits(leg: Leg, aToB: bool) {
    && InBounds(leg.cur) && InBounds(leg.target) && InBounds(leg.step.next)
    && WideEnough(leg.cur, leg.target, leg.liquidity, TWO_64 - 1)
    && CostOf(leg.liquidity, leg.cur, leg.target, aToB) < TWO_128
    && leg.step.amountIn + leg.step.fee < TWO_64 && leg.step.amountOut < TWO_128
  }

  lemma {:induction false} LegsFit(bs: seq<Tick>, c: Cursor, feePips: nat, aToB: bool)
    requires feePips < PIPS_DENOM && InBounds(c.price) && c.remaining < TWO_64 && Travel(c.price, bs, aToB)
    requires forall t :: t in bs ==> InBounds(t.sqrtPrice)
    requires AtMost(Legs(bs, c, feePips, aToB), LIQUIDITY_BOUND - 1)
    ensures forall leg :: leg in Legs(bs, c, feePips, aToB) ==> LegFits(leg, aToB)
    decreases |bs|
  {
    if c.remaining != 0 && bs != [] && c.liquidity != 0 {
      var legs, target := Legs(bs, c, feePips, aToB), bs[0].sqrtPrice;
      assert target == bs[0].sqrtPrice && bs[0] in bs && legs[0] in legs;
      StepFits(c.price, target, c.liquidity, c.remaining, feePips, aToB);
      ProductsFit(c.price, target, c.liquidity, TWO_64 - 1);
      AdvanceFacts(c, target, feePips, aToB);
      var moved := Advance(c, target, feePips, aToB);
      hide ComputeSwapStep, CostOf, WideEnough, InBounds, Bounded, ApplyNet;
      if moved.price == target {
        var next := moved.(liquidity := ApplyNet(c.liquidity, bs[0].net, aToB));
        assert legs[1..] == Legs(bs[1..], next, feePips, aToB);
        LegsFit(bs[1..], next, feePips, aToB);
        assert legs == [legs[0]] + legs[1..];
      }
    }
  }

  /** Whole quotes: if all positions together, and what the reported liquidity exceeds them by, stay below 2^72
      and the ticks lie inside the bounds, no cast of any leg is inexact and the output fits `u128`. */
  lemma QuoteFits(state: ClmmState, ps: seq<Position>, amountIn: u64, aToB: bool)
    requires PoolOf(state, ps) && state.liquidity > 0
    requires Total(ps) < LIQUIDITY_BOUND && Total(ps) + Offset(state, ps, aToB) < LIQUIDITY_BOUND
    requires forall t :: t in state.ticks ==> InBounds(t.sqrtPrice)
    ensures forall leg :: leg in QuoteLegs(state, amountIn, aToB) ==> LegFits(leg, aToB)
    ensures Final(state, amountIn, aToB).out < TWO_128
  {
    var bs, c := Crossable(state.ticks, state.sqrtPrice, aToB), Cursor(state.sqrtPrice, state.liquidity, amountIn, 0);
    CrossableTravels(state.ticks, state.sqrtPrice, aToB);
    CrossableMembers(state.ticks, state.sqrtPrice, aToB);
    LegsAtMost(state, ps, amountIn, aToB);
    hide Onward, Covering, Total, TableOf, Crossable, Walk, Advance;
    LegsFit(bs, c, state.feePips, aToB);
    if state.ticks == [] {
      OneRangeFits(state, amountIn, aToB);
    } else {
      WalkOutputFits(bs, c, state.feePips, aToB);
    }
  }

  lemma LegsAtMost(state: ClmmState, ps: seq<Position>, amountIn: u64, aToB: bool)
    requires PoolOf(state, ps)
    requires Total(ps) < LIQUIDITY_BOUND && Total(ps) + Offset(state, ps, aToB) < LIQUIDITY_BOUND
    ensures state.liquidity < LIQUIDITY_BOUND
    ensures AtMost(QuoteLegs(state, amountIn, aToB), LIQUIDITY_BOUND - 1)
  {
    QuoteTracks(state, ps, amountIn, aToB);
    AtMostTotal(state, ps, aToB);
    forall leg | leg in QuoteLegs(state, amountIn, aToB) ensures leg.liquidity <= LIQUIDITY_BOUND - 1 {
      CoveringAtMostTotal(ps, leg.target, leg.cur, 0);
      CoveringAtMostTotal(ps, leg.cur, leg.target, 0);
    }
    hide QuoteLegs, Covering, Total;
  }

  lemma AtMostTotal(state: ClmmState, ps: seq<Position>, aToB: bool)
    requires ValidAll(ps) && state.sqrtPrice > 0
    ensures Onward(ps, state.sqrtPrice, aToB) <= Total(ps)
  {
    CoveringAtMostTotal(ps, state.sqrtPrice - 1, state.sqrtPrice, 0);
    CoveringAtMostTotal(ps, state.sqrtPrice, state.sqrtPrice + 1, 0);
  }

  lemma OneRangeFits(state: ClmmState, amountIn: u64, aToB: bool)
    requires state.Valid() && state.feePips < PIPS_DENOM && 0 < state.liquidity < LIQUIDITY_BOUND && state.ticks == []
    ensures Final(state, amountIn, aToB).out < TWO_128
  {
    StepFits(state.sqrtPrice, PriceBound(aToB), state.liquidity, amountIn, state.feePips, aToB);
    hide ComputeSwapStep;
  }

  /** Twice the bound is too much: moving the price up to the engine's limit then needs more than 128 bits. */
  lemma BoundIsNeeded()
    ensures CostOf(2 * LIQUIDITY_BOUND, MIN_SQRT_PRICE, MAX_SQRT_PRICE, false) >= TWO_128
  {
    CostIsLeast(2 * LIQUIDITY_BOUND, MIN_SQRT_PRICE, MAX_SQRT_PRICE, false, TWO_128 - 1);
  }
}
