/** The tick-crossing quote: the engine's loop, the walk it computes, and what every quote guarantees. */
module ClmmQuote {
  import opened Arith
  import opened ClmmStep

  /** `TickBoundary`; `net` is an `i128`. */
  datatype Tick = Tick(sqrtPrice: nat, net: int)

  datatype ClmmState = ClmmState(sqrtPrice: nat, liquidity: nat, feePips: nat, ticks: seq<Tick>)
  {
    /** What the engine takes for granted: a price inside its bounds and a table of positive prices
        in ascending order. */
    ghost predicate Valid() {
      MIN_SQRT_PRICE <= sqrtPrice <= MAX_SQRT_PRICE && Ascending(ticks)
    }
  }

  ghost predicate Ascending(ticks: seq<Tick>) {
    && (forall i :: 0 <= i < |ticks| ==> 0 < ticks[i].sqrtPrice)
    && (forall i, j :: 0 <= i < j < |ticks| ==> ticks[i].sqrtPrice < ticks[j].sqrtPrice)
  }

  /** `apply_net`: saturating, and `-net` wraps at `i128::MIN`. */
  function ApplyNet(l: nat, net: int, aToB: bool): nat {
    var delta := if aToB && net != I128_MIN then -net else net;
    if delta >= 0 then Min(l + delta, TWO_128 - 1)
    else if l + delta >= 0 then l + delta else 0
  }

  /** Crossing upwards adds the net, downwards subtracts it, clamped to `u128`; only the least `i128`, which has no
      negation, is added in both directions. */
  lemma ApplyNetClamps(l: nat, net: int, aToB: bool)
    requires l <= 0xFFFF_FFFF_FFFF_FFFF_FFFF_FFFF_FFFF_FFFF
    ensures var wanted := if aToB && net > -0x8000_0000_0000_0000_0000_0000_0000_0000 then l - net else l + net;
            -0x8000_0000_0000_0000_0000_0000_0000_0000 <= net ==>
              ApplyNet(l, net, aToB)
              == if wanted < 0 then 0
                 else if wanted > 0xFFFF_FFFF_FFFF_FFFF_FFFF_FFFF_FFFF_FFFF
                   then 0xFFFF_FFFF_FFFF_FFFF_FFFF_FFFF_FFFF_FFFF
                 else wanted
  {}

  /** The boundaries ahead of `price`, in travel order: the filter and the sort of an ascending table. */
  function Crossable(ticks: seq<Tick>, price: nat, aToB: bool): seq<Tick> {
    if ticks == [] then []
    else
      var rest := Crossable(ticks[1..], price, aToB);
      if aToB then rest + (if ticks[0].sqrtPrice < price then [ticks[0]] else [])
      else (if ticks[0].sqrtPrice > price then [ticks[0]] else []) + rest
  }

  /** Each boundary lies ahead of the one before it. */
  ghost predicate Travel(price: nat, bs: seq<Tick>, aToB: bool)
    decreases |bs|
  {
    bs != [] ==> Ahead(price, bs[0].sqrtPrice, aToB) && Travel(bs[0].sqrtPrice, bs[1..], aToB)
  }

  /** The loop's variables. */
  datatype Cursor = Cursor(price: nat, liquidity: nat, remaining: nat, out: nat)

  /** One pass of the loop body up to the crossing: `remaining` is reduced by a saturating subtraction. */
  function Advance(c: Cursor, target: nat, feePips: nat, aToB: bool): Cursor
    requires c.liquidity > 0 && feePips < PIPS_DENOM && Ahead(c.price, target, aToB)
  {
    var s := ComputeSwapStep(c.price, target, c.liquidity, c.remaining, feePips, aToB);
    var taken := s.amountIn + s.fee;
    Cursor(s.next, c.liquidity, if taken <= c.remaining then c.remaining - taken else 0, c.out + s.amountOut)
  }

  /** The loop over initialized ticks: it stops when the input is used up, when the ticks are, inside
      a range, or when no liquidity is left. */
  function Walk(bs: seq<Tick>, c: Cursor, feePips: nat, aToB: bool): Cursor
    requires feePips < PIPS_DENOM && Travel(c.price, bs, aToB)
    decreases |bs|
  {
    if c.remaining == 0 || bs == [] || c.liquidity == 0 then c
    else
      var moved := Advance(c, bs[0].sqrtPrice, feePips, aToB);
      if moved.price != bs[0].sqrtPrice then moved
      else Walk(bs[1..], moved.(liquidity := ApplyNet(c.liquidity, bs[0].net, aToB)), feePips, aToB)
  }

  function PriceBound(aToB: bool): nat {
    if aToB then MIN_SQRT_PRICE else MAX_SQRT_PRICE
  }

  /** The loop's final variables. A pool without ticks makes one step towards the price bound. */
  function Final(state: ClmmState, amountIn: nat, aToB: bool): Cursor
    requires state.Valid() && state.liquidity > 0 && state.feePips < PIPS_DENOM
  {
    var start := Cursor(state.sqrtPrice, state.liquidity, amountIn, 0);
    if state.ticks == [] then
      if amountIn == 0 then start else Advance(start, PriceBound(aToB), state.feePips, aToB)
    else
      CrossableTravels(state.ticks, state.sqrtPrice, aToB);
      Walk(Crossable(state.ticks, state.sqrtPrice, aToB), start, state.feePips, aToB)
  }

  function Quote(state: ClmmState, amountIn: nat, aToB: bool): Option<u64>
    requires state.Valid()
  {
    if amountIn == 0 || state.liquidity == 0 || state.feePips >= PIPS_DENOM then None
    else
      var end := Final(state, amountIn, aToB);
      if (state.ticks != [] && end.remaining > 0) || end.out >= TWO_64 then None else Some(end.out)
  }

  /** `quote_exact_in`, loop for loop. */
  method QuoteExactIn(state: ClmmState, amountIn: u64, aToB: bool) returns (r: Option<u64>)
    requires state.Valid()
    ensures r == Quote(state, amountIn, aToB)
  {
    if amountIn == 0 || state.liquidity == 0 || state.feePips >= PIPS_DENOM {
      return None;
    }
    var sqrtPrice, liquidity: nat := state.sqrtPrice, state.liquidity;
    var remaining: nat, out: nat := amountIn, 0;
    var hasRealTicks := state.ticks != [];
    var boundaries := Crossable(state.ticks, sqrtPrice, aToB);
    CrossableTravels(state.ticks, sqrtPrice, aToB);
    ghost var end := Final(state, amountIn, aToB);
    var i := 0;
    while remaining > 0
      invariant 0 <= i <= |boundaries|
      invariant sqrtPrice > 0 && liquidity > 0
      invariant hasRealTicks ==> Travel(sqrtPrice, boundaries[i..], aToB)
      invariant hasRealTicks ==>
        Walk(boundaries[i..], Cursor(sqrtPrice, liquidity, remaining, out), state.feePips, aToB) == end
      invariant !hasRealTicks ==>
        boundaries == [] && Cursor(sqrtPrice, liquidity, remaining, out) == Cursor(state.sqrtPrice, state.liquidity, amountIn, 0)
      decreases |boundaries| - i, remaining
    {
      var boundary := if i < |boundaries| then Some(boundaries[i]) else None;
      if boundary.None? && hasRealTicks {
        break;
      }
      i := if boundary.Some? then i + 1 else i;
      var target := if boundary.Some? then boundary.value.sqrtPrice else PriceBound(aToB);
      ghost var before := Cursor(sqrtPrice, liquidity, remaining, out);
      var step := ComputeSwapStep(sqrtPrice, target, liquidity, remaining, state.feePips, aToB);
      var taken := step.amountIn + step.fee;
      remaining := if taken <= remaining then remaining - taken else 0;
      out := out + step.amountOut;
      sqrtPrice := step.next;
      assert Cursor(sqrtPrice, liquidity, remaining, out) == Advance(before, target, state.feePips, aToB);
      if step.next != target || boundary.None? {
        break;
      }
      assert boundaries[i - 1..][1..] == boundaries[i..];
      liquidity := ApplyNet(liquidity, boundary.value.net, aToB);
      if liquidity == 0 {
        break;
      }
    }
    if hasRealTicks && remaining > 0 {
      return None;
    }
    return if out < TWO_64 then Some(out) else None;
  }

  // --- the boundaries ---

  lemma {:induction false} CrossableTravels(ticks: seq<Tick>, price: nat, aToB: bool)
    requires price > 0 && Ascending(ticks)
    ensures Travel(price, Crossable(ticks, price, aToB), aToB)
  {
    if ticks != [] {
      CrossableTravels(ticks[1..], price, aToB);
      var rest := Crossable(ticks[1..], price, aToB);
      CrossableMembers(ticks[1..], price, aToB);
      if aToB && ticks[0].sqrtPrice < price {
        TravelSnoc(price, rest, ticks[0]);
      } else if !aToB && ticks[0].sqrtPrice > price {
        TravelCons(price, ticks[0], rest);
        assert ([ticks[0]] + rest)[1..] == rest;
      } else if aToB {
        assert rest + [] == rest;
      } else {
        assert [] + rest == rest;
      }
    }
  }

  /** The crossable boundaries are exactly the ticks strictly ahead of the price. */
  lemma {:induction false} CrossableMembers(ticks: seq<Tick>, price: nat, aToB: bool)
    ensures forall t :: t in Crossable(ticks, price, aToB)
              <==> t in ticks && (if aToB then t.sqrtPrice < price else t.sqrtPrice > price)
  {
    if ticks != [] {
      CrossableMembers(ticks[1..], price, aToB);
      assert ticks == [ticks[0]] + ticks[1..];
    }
  }

  /** Every boundary of a walk lies ahead of where it starts. */
  lemma {:induction false} TravelOrdered(price: nat, bs: seq<Tick>, aToB: bool)
    requires Travel(price, bs, aToB)
    ensures forall b :: b in bs ==> Ahead(price, b.sqrtPrice, aToB)
    decreases |bs|
  {
    if bs != [] {
      TravelOrdered(bs[0].sqrtPrice, bs[1..], aToB);
      assert bs == [bs[0]] + bs[1..];
    }
  }

  lemma {:induction false} TravelSnoc(price: nat, bs: seq<Tick>, t: Tick)
    requires Travel(price, bs, true) && 0 < t.sqrtPrice < price
    requires forall b :: b in bs ==> t.sqrtPrice < b.sqrtPrice
    ensures Travel(price, bs + [t], true)
  {
    if bs == [] {
      assert bs + [t] == [t];
    } else {
      TravelSnoc(bs[0].sqrtPrice, bs[1..], t);
      assert (bs + [t])[1..] == bs[1..] + [t];
    }
  }

  lemma TravelCons(price: nat, t: Tick, bs: seq<Tick>)
    requires Travel(price, bs, false) && 0 < price < t.sqrtPrice
    requires forall b :: b in bs ==> t.sqrtPrice < b.sqrtPrice
    ensures Travel(t.sqrtPrice, bs, false)
  {}
}
