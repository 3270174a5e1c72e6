/** Windowed pools: what tracking and the fixed widths promise for a full table they promise for any piece of it
    that reaches the price. */
module WindowTracking {
  import opened Arith
  import opened ClmmStep
  import opened ClmmQuote
  import opened ClmmBounds
  import opened ClmmWidths
  import opened Liquidity
  import opened TickWindow

  /** A walk over the nearer boundaries makes the first steps of the walk over all of them. */
  lemma {:induction false} LegsPrefix(near: seq<Tick>, far: seq<Tick>, c: Cursor, feePips: nat, aToB: bool)
    requires feePips < PIPS_DENOM && Travel(c.price, near + far, aToB) && Travel(c.price, near, aToB)
    ensures Legs(near, c, feePips, aToB) <= Legs(near + far, c, feePips, aToB)
    decreases |near|
  {
    if near != [] && c.remaining != 0 && c.liquidity != 0 {
      assert (near + far)[1..] == near[1..] + far;
      var moved := Advance(c, near[0].sqrtPrice, feePips, aToB);
      hide Advance, ApplyNet, ComputeSwapStep;
      if moved.price == near[0].sqrtPrice {
        LegsPrefix(near[1..], far, moved.(liquidity := ApplyNet(c.liquidity, near[0].net, aToB)), feePips, aToB);
      }
    }
  }

  /** What the indexer keeps of a pool: a non-empty piece of its table that reaches the price. */
  ghost predicate PieceOf(whole: ClmmState, part: ClmmState, nodes: seq<Node>, start: nat, end: nat) {
    && Table(nodes) && start < end <= |nodes| && Reaches(nodes, start, end, whole.sqrtPrice)
    && whole.ticks == Ticks(nodes) && part == whole.(ticks := Ticks(nodes[start..end]))
  }

  lemma PieceLegs(whole: ClmmState, part: ClmmState, nodes: seq<Node>, start: nat, end: nat, amountIn: nat, aToB: bool)
    requires PieceOf(whole, part, nodes, start, end)
    requires MIN_SQRT_PRICE <= whole.sqrtPrice <= MAX_SQRT_PRICE && whole.feePips < PIPS_DENOM
    ensures whole.Valid() && part.Valid() && part.ticks != []
    ensures QuoteLegs(part, amountIn, aToB) <= QuoteLegs(whole, amountIn, aToB)
  {
    PieceValid(nodes, start, end);
    var far := PieceBoundaries(nodes, start, end, whole.sqrtPrice, aToB);
    hide Crossable, Ticks, Reaches, Table;
    CrossableTravels(whole.ticks, whole.sqrtPrice, aToB);
    CrossableTravels(part.ticks, part.sqrtPrice, aToB);
    hide Travel, Legs;
    LegsPrefix(Crossable(part.ticks, part.sqrtPrice, aToB), far,
               Cursor(whole.sqrtPrice, whole.liquidity, amountIn, 0), whole.feePips, aToB);
  }

  /** A windowed pool is priced, range by range, with the positions that cover it exactly when the reported
      liquidity is that of the range ahead, or no step is made. */
  lemma PieceTracksIffOnward(whole: ClmmState, part: ClmmState, nodes: seq<Node>, start: nat, end: nat,
                             ps: seq<Position>, amountIn: nat, aToB: bool)
    requires PieceOf(whole, part, nodes, start, end) && PoolOf(whole, ps) && Roomy(ps, Offset(whole, ps, aToB))
    ensures part.Valid()
    ensures TrackedUpTo(ps, QuoteLegs(part, amountIn, aToB), Offset(whole, ps, aToB), aToB)
    ensures Tracked(ps, QuoteLegs(part, amountIn, aToB), aToB) <==>
              || whole.liquidity == Onward(ps, whole.sqrtPrice, aToB)
              || whole.liquidity == 0 || amountIn == 0 || Crossable(part.ticks, part.sqrtPrice, aToB) == []
  {
    PieceLegs(whole, part, nodes, start, end, amountIn, aToB);
    QuoteTracks(whole, ps, amountIn, aToB);
    if part.liquidity > 0 && amountIn > 0 && Crossable(part.ticks, part.sqrtPrice, aToB) != [] {
      FirstLeg(part, amountIn, aToB);
    } else {
      assert QuoteLegs(part, amountIn, aToB) == [];
    }
    hide Onward, Across, Legs, QuoteLegs, TableOf, PieceOf, Crossable;
  }

  /** Under the bounds that make a full table fit, every leg and the output of a windowed quote fit as well. */
  lemma PieceFits(whole: ClmmState, part: ClmmState, nodes: seq<Node>, start: nat, end: nat, ps: seq<Position>,
                  amountIn: u64, aToB: bool)
    requires PieceOf(whole, part, nodes, start, end) && PoolOf(whole, ps) && whole.liquidity > 0
    requires Total(ps) < LIQUIDITY_BOUND && Total(ps) + Offset(whole, ps, aToB) < LIQUIDITY_BOUND
    requires forall t :: t in whole.ticks ==> InBounds(t.sqrtPrice)
    ensures part.Valid()
    ensures forall leg :: leg in QuoteLegs(part, amountIn, aToB) ==> LegFits(leg, aToB)
    ensures Final(part, amountIn, aToB).out < TWO_128
  {
    PieceLegs(whole, part, nodes, start, end, amountIn, aToB);
    QuoteFits(whole, ps, amountIn, aToB);
    LegsAtMost(whole, ps, amountIn, aToB);
    PieceInBounds(whole, part, nodes, start, end);
    CrossableTravels(part.ticks, part.sqrtPrice, aToB);
    CrossableMembers(part.ticks, part.sqrtPrice, aToB);
    hide PieceOf, PoolOf, Total, Onward, LegFits, Legs, Walk, Crossable;
    WalkOutputFits(Crossable(part.ticks, part.sqrtPrice, aToB), Cursor(part.sqrtPrice, part.liquidity, amountIn, 0),
                   part.feePips, aToB);
  }

  lemma PieceInBounds(whole: ClmmState, part: ClmmState, nodes: seq<Node>, start: nat, end: nat)
    requires PieceOf(whole, part, nodes, start, end) && forall t :: t in whole.ticks ==> InBounds(t.sqrtPrice)
    ensures forall t :: t in part.ticks ==> InBounds(t.sqrtPrice)
  {
    forall t | t in part.ticks ensures InBounds(t.sqrtPrice) {
      var k :| 0 <= k < |part.ticks| && part.ticks[k] == t;
      assert whole.ticks[start + k] == t;
    }
  }
}
