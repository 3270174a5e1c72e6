/** The tick table as a record of positions: crossing ticks keeps the loop's liquidity equal to the
    positions that cover the range it is in. */
module Liquidity {
  import opened Arith
  import opened ClmmStep
  import opened ClmmQuote
  import opened ClmmBounds

  /** A position provides `amount` between two square-root prices. */
  datatype Position = Position(lower: nat, upper: nat, amount: nat)
  {
    predicate Valid() { 0 < lower < upper }

    /** The position covers the whole range `[lo, hi]`. */
    predicate CoversRange(lo: nat, hi: nat) { lower <= lo && hi <= upper }

    /** What the position adds to `liquidityNet` at a price: its amount where it starts, minus it where it ends. */
    function NetAt(price: nat): int {
      (if price == lower then amount else 0) - (if price == upper then amount else 0)
    }
  }

  predicate ValidAll(ps: seq<Position>) {
    forall i :: 0 <= i < |ps| ==> ps[i].Valid()
  }

  /** Liquidity of the positions covering a range. */
  function Covering(ps: seq<Position>, lo: nat, hi: nat): nat {
    if ps == [] then 0
    else (if ps[0].CoversRange(lo, hi) then ps[0].amount else 0) + Covering(ps[1..], lo, hi)
  }

  function NetAt(ps: seq<Position>, price: nat): int {
    if ps == [] then 0 else ps[0].NetAt(price) + NetAt(ps[1..], price)
  }

  function Total(ps: seq<Position>): nat {
    if ps == [] then 0 else ps[0].amount + Total(ps[1..])
  }

  /** `ticks` is the table of these positions: every end of a position is a tick, and each tick carries
      the positions' net. */
  ghost predicate TableOf(ticks: seq<Tick>, ps: seq<Position>) {
    && Ascending(ticks)
    && (forall i :: 0 <= i < |ps| ==> IsTick(ticks, ps[i].lower) && IsTick(ticks, ps[i].upper))
    && (forall t :: t in ticks ==> t.net == NetAt(ps, t.sqrtPrice))
  }

  ghost predicate IsTick(ticks: seq<Tick>, price: nat) {
    exists i :: 0 <= i < |ticks| && ticks[i].sqrtPrice == price
  }

  /** No position starts or ends strictly inside the range. */
  predicate Quiet(ps: seq<Position>, lo: nat, hi: nat) {
    forall i :: 0 <= i < |ps| ==> !(lo < ps[i].lower < hi) && !(lo < ps[i].upper < hi)
  }

  /** On a quiet range the coverage is the same at either end and throughout. */
  lemma {:induction false} QuietCovering(ps: seq<Position>, lo: nat, hi: nat)
    requires lo < hi && Quiet(ps, lo, hi)
    ensures Covering(ps, lo, lo + 1) == Covering(ps, lo, hi) == Covering(ps, hi - 1, hi)
  {
    if ps != [] { QuietCovering(ps[1..], lo, hi); }
  }

  /** Crossing a price changes the coverage by exactly the net there. */
  lemma {:induction false} CrossingChange(ps: seq<Position>, price: nat)
    requires price > 0 && ValidAll(ps)
    ensures Covering(ps, price, price + 1) - Covering(ps, price - 1, price) == NetAt(ps, price)
  {
    if ps != [] { CrossingChange(ps[1..], price); }
  }

  lemma {:induction false} CoveringAtMostTotal(ps: seq<Position>, lo: nat, hi: nat, price: nat)
    requires ValidAll(ps)
    ensures Covering(ps, lo, hi) <= Total(ps)
    ensures 0 - Total(ps) <= NetAt(ps, price) <= Total(ps)
  {
    if ps != [] { CoveringAtMostTotal(ps[1..], lo, hi, price); }
  }

  /** Liquidity just past `price` in the direction of travel. */
  function Onward(ps: seq<Position>, price: nat, aToB: bool): nat
    requires price > 0
  {
    if aToB then Covering(ps, price - 1, price) else Covering(ps, price, price + 1)
  }

  /** Liquidity of the range between a price and the target ahead of it. */
  function Across(ps: seq<Position>, cur: nat, target: nat, aToB: bool): nat {
    if aToB then Covering(ps, target, cur) else Covering(ps, cur, target)
  }

  /** The walk's liquidity may be off by `e` from the positions': all of it still fits `u128`, and all
      positions together `i128`. */
  predicate Roomy(ps: seq<Position>, e: int) {
    Total(ps) < TWO_128 / 2 && Total(ps) + e < TWO_128
  }

  /** As long as there is room, `apply_net` never saturates upwards nor wraps: it turns the liquidity of the
      range behind a tick, off by `e`, into that of the range ahead, off by as much, or into 0 if that would be
      negative. */
  lemma ApplyNetTracks(ps: seq<Position>, cur: nat, tick: Tick, l: nat, e: int, aToB: bool)
    requires ValidAll(ps) && Roomy(ps, e)
    requires tick.sqrtPrice > 0 && tick.net == NetAt(ps, tick.sqrtPrice)
    requires Ahead(cur, tick.sqrtPrice, aToB) && cur != tick.sqrtPrice
    requires if aToB then Quiet(ps, tick.sqrtPrice, cur) else Quiet(ps, cur, tick.sqrtPrice)
    requires l == Onward(ps, cur, aToB) + e
    ensures l == Across(ps, cur, tick.sqrtPrice, aToB) + e
    ensures var ahead := Onward(ps, tick.sqrtPrice, aToB) + e;
            && ApplyNet(l, tick.net, aToB) == (if ahead >= 0 then ahead else 0)
            && ahead == if aToB then l - tick.net else l + tick.net
  {
    var p := tick.sqrtPrice;
    if aToB { QuietCovering(ps, p, cur); } else { QuietCovering(ps, cur, p); }
    CrossingChange(ps, p);
    CoveringAtMostTotal(ps, p - 1, p, p);
    CoveringAtMostTotal(ps, p, p + 1, p);
  }

  /** The boundaries still ahead are all the ticks ahead. */
  ghost predicate AllAhead(ticks: seq<Tick>, bs: seq<Tick>, price: nat, aToB: bool) {
    forall t :: t in bs <==> t in ticks && (if aToB then t.sqrtPrice < price else t.sqrtPrice > price)
  }

  ghost predicate Distinct(bs: seq<Tick>) {
    forall i, j :: 0 <= i < j < |bs| ==> bs[i] != bs[j]
  }

  /** Up to the next boundary the range is quiet. */
  lemma QuietAhead(ticks: seq<Tick>, ps: seq<Position>, bs: seq<Tick>, price: nat, aToB: bool)
    requires TableOf(ticks, ps) && Travel(price, bs, aToB) && AllAhead(ticks, bs, price, aToB) && bs != []
    ensures var p := bs[0].sqrtPrice; if aToB then Quiet(ps, p, price) else Quiet(ps, price, p)
  {
    var p := bs[0].sqrtPrice;
    TravelOrdered(p, bs[1..], aToB);
    assert bs == [bs[0]] + bs[1..];
    forall q: nat | IsTick(ticks, q) ensures if aToB then !(p < q < price) else !(price < q < p) {
      var i :| 0 <= i < |ticks| && ticks[i].sqrtPrice == q;
      if (if aToB then q < price else q > price) { assert ticks[i] in bs; }
    }
  }

  lemma HeadIsTick(ticks: seq<Tick>, ps: seq<Position>, bs: seq<Tick>, price: nat, aToB: bool)
    requires TableOf(ticks, ps) && Travel(price, bs, aToB) && AllAhead(ticks, bs, price, aToB) && bs != []
    ensures var t := bs[0];
            t.sqrtPrice > 0 && t.sqrtPrice != price && Ahead(price, t.sqrtPrice, aToB)
            && t.net == NetAt(ps, t.sqrtPrice) && Ascending(ticks)
  {
    assert bs[0] in bs;
  }

  lemma AllAheadShifts(ticks: seq<Tick>, bs: seq<Tick>, price: nat, aToB: bool)
    requires Ascending(ticks) && Travel(price, bs, aToB) && AllAhead(ticks, bs, price, aToB) && bs != []
    requires Distinct(bs)
    ensures Distinct(bs[1..])
    ensures AllAhead(ticks, bs[1..], bs[0].sqrtPrice, aToB)
  {
    TravelOrdered(bs[0].sqrtPrice, bs[1..], aToB);
    assert bs == [bs[0]] + bs[1..];
    forall t | t in bs[1..] ensures t.sqrtPrice != bs[0].sqrtPrice {
      assert t in ticks && bs[0] in ticks;
      var i :| 0 <= i < |ticks| && ticks[i] == t;
      var j :| 0 <= j < |ticks| && ticks[j] == bs[0];
      var k :| 0 <= k < |bs[1..]| && bs[1..][k] == t;
      assert bs[k + 1] != bs[0];
    }
  }

  /** Each leg has the liquidity of the positions covering its range, off by `e`. */
  ghost predicate TrackedUpTo(ps: seq<Position>, legs: seq<Leg>, e: int, aToB: bool) {
    forall leg :: leg in legs ==> leg.liquidity == Across(ps, leg.cur, leg.target, aToB) + e
  }

  ghost predicate Tracked(ps: seq<Position>, legs: seq<Leg>, aToB: bool) {
    TrackedUpTo(ps, legs, 0, aToB)
  }

  /** A walk that starts off by `e` stays off by `e` on every leg; one that starts right stays right. */
  lemma {:induction false} LegsTrack(ticks: seq<Tick>, ps: seq<Position>, bs: seq<Tick>, c: Cursor, feePips: nat,
                                     e: int, aToB: bool)
    requires feePips < PIPS_DENOM && c.price > 0 && ValidAll(ps) && Roomy(ps, e)
    requires TableOf(ticks, ps) && Travel(c.price, bs, aToB) && AllAhead(ticks, bs, c.price, aToB)
    requires Distinct(bs)
    requires c.liquidity == Onward(ps, c.price, aToB) + e
    ensures TrackedUpTo(ps, Legs(bs, c, feePips, aToB), e, aToB)
    decreases |bs|
  {
    hide ApplyNet, Advance, ComputeSwapStep, Covering, NetAt, Total, Roomy, TableOf, AllAhead, Distinct, Onward, Across;
    if c.remaining != 0 && bs != [] && c.liquidity != 0 {
      HeadIsTick(ticks, ps, bs, c.price, aToB);
      QuietAhead(ticks, ps, bs, c.price, aToB);
      ApplyNetTracks(ps, c.price, bs[0], c.liquidity, e, aToB);
      AllAheadShifts(ticks, bs, c.price, aToB);
      var moved := Advance(c, bs[0].sqrtPrice, feePips, aToB);
      if moved.price == bs[0].sqrtPrice {
        var next := moved.(liquidity := ApplyNet(c.liquidity, bs[0].net, aToB));
        if next.liquidity != 0 { LegsTrack(ticks, ps, bs[1..], next, feePips, e, aToB); }
        assert Legs(bs, c, feePips, aToB)[1..] == Legs(bs[1..], next, feePips, aToB);
      } else {
        assert |Legs(bs, c, feePips, aToB)| == 1;
      }
    }
  }

  // --- quotes ---

  lemma {:induction false} CrossableDistinct(ticks: seq<Tick>, price: nat, aToB: bool)
    requires Ascending(ticks)
    ensures Distinct(Crossable(ticks, price, aToB))
  {
    if ticks != [] {
      CrossableDistinct(ticks[1..], price, aToB);
      CrossableMembers(ticks[1..], price, aToB);
      var rest := Crossable(ticks[1..], price, aToB);
      forall b | b in rest ensures b != ticks[0] {
        var i :| 0 <= i < |ticks[1..]| && ticks[1..][i] == b;
        assert ticks[i + 1] == b;
      }
    }
  }

  /** What the engine needs of a pool and its positions. */
  ghost predicate PoolOf(state: ClmmState, ps: seq<Position>) {
    state.Valid() && state.feePips < PIPS_DENOM && ValidAll(ps) && TableOf(state.ticks, ps)
  }

  /** How far the reported liquidity is off from the range ahead. */
  function Offset(state: ClmmState, ps: seq<Position>, aToB: bool): int
    requires state.sqrtPrice > 0
  {
    state.liquidity - Onward(ps, state.sqrtPrice, aToB)
  }

  /** Over a whole quote the liquidity is off, range by range, by as much as it was at the start. */
  lemma QuoteTracks(state: ClmmState, ps: seq<Position>, amountIn: nat, aToB: bool)
    requires PoolOf(state, ps) && Roomy(ps, Offset(state, ps, aToB))
    ensures TrackedUpTo(ps, QuoteLegs(state, amountIn, aToB), Offset(state, ps, aToB), aToB)
  {
    CrossableTravels(state.ticks, state.sqrtPrice, aToB);
    CrossableMembers(state.ticks, state.sqrtPrice, aToB);
    CrossableDistinct(state.ticks, state.sqrtPrice, aToB);
    LegsTrack(state.ticks, ps, Crossable(state.ticks, state.sqrtPrice, aToB),
              Cursor(state.sqrtPrice, state.liquidity, amountIn, 0), state.feePips, Offset(state, ps, aToB), aToB);
  }

  /** A quote is priced, range by range, with the positions that cover it exactly when it starts with the
      liquidity of the range ahead (or makes no step at all). */
  lemma TracksIffOnward(state: ClmmState, ps: seq<Position>, amountIn: nat, aToB: bool)
    requires PoolOf(state, ps) && Roomy(ps, Offset(state, ps, aToB))
    ensures Tracked(ps, QuoteLegs(state, amountIn, aToB), aToB) <==>
              || state.liquidity == Onward(ps, state.sqrtPrice, aToB)
              || state.liquidity == 0 || amountIn == 0 || Crossable(state.ticks, state.sqrtPrice, aToB) == []
  {
    QuoteTracks(state, ps, amountIn, aToB);
    if state.liquidity > 0 && amountIn > 0 && Crossable(state.ticks, state.sqrtPrice, aToB) != [] {
      FirstLeg(state, amountIn, aToB);
    } else {
      assert QuoteLegs(state, amountIn, aToB) == [];
    }
    hide Onward, Across, Legs, QuoteLegs, TableOf;
  }

  /** A pool that sits on a tick reports the liquidity of the range above it or, after a downward swap that
      ended there, of the range below. Towards the side it reports the quote tracks; towards the other side it
      tracks exactly when no net liquidity sits at the price, because a tick at the price is never crossed. */
  lemma TrackingFromChainLiquidity(state: ClmmState, ps: seq<Position>, amountIn: nat, aToB: bool, reported: bool)
    requires PoolOf(state, ps) && Total(ps) < TWO_128 / 2
    requires state.liquidity == Onward(ps, state.sqrtPrice, reported)
    requires state.liquidity > 0 && amountIn > 0 && Crossable(state.ticks, state.sqrtPrice, aToB) != []
    ensures Tracked(ps, QuoteLegs(state, amountIn, aToB), aToB) <==>
              aToB == reported || NetAt(ps, state.sqrtPrice) == 0
  {
    EitherSide(ps, state.sqrtPrice, aToB, reported);
    hide Tracked, QuoteLegs, Onward, NetAt, Total, TableOf, Crossable;
    TracksIffOnward(state, ps, amountIn, aToB);
  }

  /** The two sides of a price differ by the net there, and by no more than all positions together. */
  lemma EitherSide(ps: seq<Position>, price: nat, aToB: bool, reported: bool)
    requires ValidAll(ps) && price > 0
    ensures Onward(ps, price, reported) == Onward(ps, price, aToB) <==> aToB == reported || NetAt(ps, price) == 0
    ensures Onward(ps, price, reported) - Onward(ps, price, aToB) <= Total(ps)
  {
    CrossingChange(ps, price);
    CoveringAtMostTotal(ps, price - 1, price, 0);
    CoveringAtMostTotal(ps, price, price + 1, 0);
    hide Covering, NetAt, Total, ValidAll;
  }

  /** A pool on a tick, left there by a downward swap: going up, it is priced with a position that ended. */
  lemma OnTickMispriced()
    ensures exists state: ClmmState, ps: seq<Position>, amountIn: nat ::
              && PoolOf(state, ps) && Total(ps) < TWO_128 / 2
              && state.liquidity == Onward(ps, state.sqrtPrice, true)
              && !Tracked(ps, QuoteLegs(state, amountIn, false), false)
  {
    var p, q := Position(Q64 - 10, Q64, 5), Position(Q64 - 10, Q64 + 10, 7);
    var ps := [p, q];
    var ticks := [Tick(Q64 - 10, 12), Tick(Q64, -5), Tick(Q64 + 10, -7)];
    var state := ClmmState(Q64, 12, 0, ticks);
    Pair(p, q, Q64 - 1, Q64, Q64 - 10);
    Pair(p, q, Q64 - 1, Q64, Q64);
    Pair(p, q, Q64 - 1, Q64, Q64 + 10);
    hide NetAt, Covering, Total;
    assert Covering(ps, Q64 - 1, Q64) == 12 && Total(ps) == 12;
    assert NetAt(ps, Q64 - 10) == 12 && NetAt(ps, Q64) == -5 && NetAt(ps, Q64 + 10) == -7;
    assert ticks[0].sqrtPrice == Q64 - 10 && ticks[1].sqrtPrice == Q64 && ticks[2].sqrtPrice == Q64 + 10;
    assert TableOf(ticks, ps) && PoolOf(state, ps);
    CrossableMembers(ticks, Q64, false);
    assert ticks[2] in Crossable(ticks, Q64, false);
    hide TableOf, Crossable, Tracked, QuoteLegs;
    TrackingFromChainLiquidity(state, ps, 1, false, true);
  }

  lemma Pair(p: Position, q: Position, lo: nat, hi: nat, price: nat)
    ensures Total([p, q]) == p.amount + q.amount && NetAt([p, q], price) == p.NetAt(price) + q.NetAt(price)
    ensures Covering([p, q], lo, hi)
            == (if p.CoversRange(lo, hi) then p.amount else 0) + (if q.CoversRange(lo, hi) then q.amount else 0)
  {
    assert [p, q][1..] == [q];
    Single(q, lo, hi, price);
  }

  lemma Single(q: Position, lo: nat, hi: nat, price: nat)
    ensures Total([q]) == q.amount && NetAt([q], price) == q.NetAt(price)
    ensures Covering([q], lo, hi) == if q.CoversRange(lo, hi) then q.amount else 0
  {
    var ps := [q];
    assert ps[1..] == [];
    assert NetAt(ps, price) == ps[0].NetAt(price) + NetAt(ps[1..], price);
  }

  lemma FirstLeg(state: ClmmState, amountIn: nat, aToB: bool)
    requires state.Valid() && state.feePips < PIPS_DENOM && state.liquidity > 0 && amountIn > 0
    requires Crossable(state.ticks, state.sqrtPrice, aToB) != []
    ensures var legs := QuoteLegs(state, amountIn, aToB);
            legs != [] && legs[0] in legs && legs[0].liquidity == state.liquidity
            && legs[0].cur == state.sqrtPrice && legs[0].target == Crossable(state.ticks, state.sqrtPrice, aToB)[0].sqrtPrice
  {
    hide Advance, ComputeSwapStep, Crossable, ApplyNet;
  }

  // --- the nets ---

  function SumNets(ticks: seq<Tick>): int {
    if ticks == [] then 0 else ticks[0].net + SumNets(ticks[1..])
  }

  function SumNetsOf(ticks: seq<Tick>, p: Position): int {
    if ticks == [] then 0 else p.NetAt(ticks[0].sqrtPrice) + SumNetsOf(ticks[1..], p)
  }

  function SumNetsAll(ticks: seq<Tick>, ps: seq<Position>): int {
    if ticks == [] then 0 else NetAt(ps, ticks[0].sqrtPrice) + SumNetsAll(ticks[1..], ps)
  }

  /** The nets of a full table cancel. */
  lemma NetsSumToZero(ticks: seq<Tick>, ps: seq<Position>)
    requires TableOf(ticks, ps) && ValidAll(ps)
    ensures SumNets(ticks) == 0
  {
    SumNetsIsAll(ticks, ps);
    PositionsCancel(ticks, ps);
  }

  lemma {:induction false} SumNetsIsAll(ticks: seq<Tick>, ps: seq<Position>)
    requires forall t :: t in ticks ==> t.net == NetAt(ps, t.sqrtPrice)
    ensures SumNets(ticks) == SumNetsAll(ticks, ps)
  {
    if ticks != [] {
      assert ticks[0] in ticks;
      SumNetsIsAll(ticks[1..], ps);
    }
  }

  lemma {:induction false} PositionsCancel(ticks: seq<Tick>, ps: seq<Position>)
    requires Ascending(ticks) && ValidAll(ps)
    requires forall i :: 0 <= i < |ps| ==> IsTick(ticks, ps[i].lower) && IsTick(ticks, ps[i].upper)
    ensures SumNetsAll(ticks, ps) == 0
  {
    if ps == [] {
      NoPositions(ticks);
    } else {
      PositionsCancel(ticks, ps[1..]);
      SplitPositions(ticks, ps);
      OneCancels(ticks, ps[0]);
    }
  }

  lemma {:induction false} NoPositions(ticks: seq<Tick>)
    ensures SumNetsAll(ticks, []) == 0
  {
    if ticks != [] { NoPositions(ticks[1..]); }
  }

  lemma {:induction false} SplitPositions(ticks: seq<Tick>, ps: seq<Position>)
    requires ps != []
    ensures SumNetsAll(ticks, ps) == SumNetsOf(ticks, ps[0]) + SumNetsAll(ticks, ps[1..])
  {
    if ticks != [] { SplitPositions(ticks[1..], ps); }
  }

  /** In an ascending table each end of a position occurs exactly once. */
  lemma {:induction false} OneCancels(ticks: seq<Tick>, p: Position)
    requires Ascending(ticks) && p.Valid()
    ensures SumNetsOf(ticks, p)
            == (if IsTick(ticks, p.lower) then p.amount else 0) - (if IsTick(ticks, p.upper) then p.amount else 0)
  {
    if ticks != [] {
      OneCancels(ticks[1..], p);
      forall q: nat ensures IsTick(ticks, q) <==> q == ticks[0].sqrtPrice || IsTick(ticks[1..], q) {
        if IsTick(ticks[1..], q) {
          var i :| 0 <= i < |ticks[1..]| && ticks[1..][i].sqrtPrice == q;
          assert ticks[i + 1].sqrtPrice == q;
        }
        if IsTick(ticks, q) && q != ticks[0].sqrtPrice {
          var i :| 0 <= i < |ticks| && ticks[i].sqrtPrice == q;
          assert ticks[1..][i - 1].sqrtPrice == q;
        }
      }
      assert !IsTick(ticks[1..], ticks[0].sqrtPrice);
    }
  }
}
