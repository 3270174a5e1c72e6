/** Quoting from a window of the tick table: truncation may refuse a trade, never change its price. */
module TickWindow {
  import opened Arith
  import opened ClmmStep
  import opened ClmmQuote
  import opened ClmmBounds
  import ClmmV2

  /** A tick as the loaders enumerate it: its sort key (a Cetus score or a Turbos index) and its content. */
  datatype Node = Node(key: int, tick: Tick)

  /** Keys and prices ascend together. */
  ghost predicate Table(nodes: seq<Node>) {
    && (forall i :: 0 <= i < |nodes| ==> nodes[i].tick.sqrtPrice > 0)
    && (forall i, j :: 0 <= i < j < |nodes| ==>
          nodes[i].key < nodes[j].key && nodes[i].tick.sqrtPrice < nodes[j].tick.sqrtPrice)
  }

  function Ticks(nodes: seq<Node>): (ticks: seq<Tick>)
    ensures |ticks| == |nodes|
    ensures forall i :: 0 <= i < |nodes| ==> ticks[i] == nodes[i].tick
  {
    seq(|nodes|, i requires 0 <= i < |nodes| => nodes[i].tick)
  }

  /** `partition_point(|k| k < center)` on a sorted slice: how many keys lie below the centre. */
  function PartitionPoint(nodes: seq<Node>, center: int): (pos: nat)
    ensures pos <= |nodes|
    ensures pos < |nodes| ==> nodes[pos].key >= center
    ensures forall i :: 0 <= i < pos ==> nodes[i].key < center
  {
    if nodes == [] || nodes[0].key >= center then 0 else 1 + PartitionPoint(nodes[1..], center)
  }

  /** The index arithmetic of `select_window`, saturating at both ends. */
  function WindowBounds(nodes: seq<Node>, center: int, window: nat): (w: (nat, nat))
    ensures w.0 <= w.1 <= |nodes| && w.1 - w.0 == Min(window, |nodes|)
    ensures w.0 <= PartitionPoint(nodes, center)
    ensures window > 0 ==> w.1 > PartitionPoint(nodes, center) || w.1 == |nodes|
  {
    var pos := PartitionPoint(nodes, center);
    if |nodes| <= window then (0, |nodes|)
    else
      var start := if pos >= window / 2 then pos - window / 2 else 0;
      var end := Min(start + window, |nodes|);
      (if end >= window then end - window else 0, end)
  }

  function SelectWindow(nodes: seq<Node>, center: int, window: nat): seq<Node> {
    var (start, end) := WindowBounds(nodes, center, window);
    nodes[start..end]
  }

  /** The centre is the pool's current tick: no tick below it is priced above the pool, none above it below. */
  ghost predicate Centred(nodes: seq<Node>, center: int, price: nat) {
    forall i :: 0 <= i < |nodes| ==>
      (nodes[i].key < center ==> nodes[i].tick.sqrtPrice <= price)
      && (nodes[i].key > center ==> nodes[i].tick.sqrtPrice >= price)
  }

  /** A piece of the table reaches a price from both sides: what it drops below is priced at most there, what
      it drops above at least. */
  ghost predicate Reaches(nodes: seq<Node>, start: nat, end: nat, price: nat)
    requires start <= end <= |nodes|
  {
    && (forall i :: 0 <= i < start ==> nodes[i].tick.sqrtPrice <= price)
    && (forall i :: end <= i < |nodes| ==> nodes[i].tick.sqrtPrice >= price)
  }

  /** A non-empty window is one contiguous piece of the full size that reaches the current price. */
  lemma WindowSplits(nodes: seq<Node>, center: int, window: nat, price: nat)
    requires window > 0 && Table(nodes) && Centred(nodes, center, price)
    ensures var (start, end) := WindowBounds(nodes, center, window);
            && Reaches(nodes, start, end, price)
            && SelectWindow(nodes, center, window) == nodes[start..end]
            && end - start == Min(window, |nodes|)
  {
    var (start, end) := WindowBounds(nodes, center, window);
    forall i | end <= i < |nodes| ensures nodes[i].tick.sqrtPrice >= price {
      assert nodes[PartitionPoint(nodes, center)].key < nodes[i].key;
    }
  }

  // --- prefixes of a walk ---

  lemma {:induction false} TravelPrefix(price: nat, near: seq<Tick>, far: seq<Tick>, aToB: bool)
    requires Travel(price, near + far, aToB)
    ensures Travel(price, near, aToB)
    decreases |near|
  {
    if near != [] {
      assert (near + far)[1..] == near[1..] + far;
      TravelPrefix(near[0].sqrtPrice, near[1..], far, aToB);
    }
  }

  /** If the full walk needs no more than the nearer boundaries, knowing only those gives the same walk; and a
      walk that uses up its input on them is the full walk and needed no more. */
  lemma {:induction false} WalkPrefix(near: seq<Tick>, far: seq<Tick>, c: Cursor, feePips: nat, aToB: bool)
    requires feePips < PIPS_DENOM && Travel(c.price, near + far, aToB) && Travel(c.price, near, aToB)
    ensures var known, full := Walk(near, c, feePips, aToB), Walk(near + far, c, feePips, aToB);
            var needed := |Legs(near + far, c, feePips, aToB)|;
            && (known.remaining == 0 ==> full == known && needed <= |near|)
            && (needed <= |near| ==> full == known)
    decreases |near|
  {
    if near == [] {
      assert near + far == far;
    } else if c.remaining != 0 && c.liquidity != 0 {
      assert (near + far)[1..] == near[1..] + far;
      var moved := Advance(c, near[0].sqrtPrice, feePips, aToB);
      hide Advance, ApplyNet, ComputeSwapStep;
      if moved.price == near[0].sqrtPrice {
        WalkPrefix(near[1..], far, moved.(liquidity := ApplyNet(c.liquidity, near[0].net, aToB)), feePips, aToB);
      }
    }
  }

  lemma {:induction false} CrossableConcat(xs: seq<Tick>, ys: seq<Tick>, price: nat, aToB: bool)
    ensures Crossable(xs + ys, price, aToB)
            == if aToB then Crossable(ys, price, aToB) + Crossable(xs, price, aToB)
               else Crossable(xs, price, aToB) + Crossable(ys, price, aToB)
  {
    if xs == [] {
      assert xs + ys == ys;
      assert Crossable(ys, price, aToB) + [] == Crossable(ys, price, aToB) == [] + Crossable(ys, price, aToB);
    } else {
      assert (xs + ys)[1..] == xs[1..] + ys && (xs + ys)[0] == xs[0];
      CrossableHead(xs, price, aToB);
      CrossableHead(xs + ys, price, aToB);
      hide *;
      CrossableConcat(xs[1..], ys, price, aToB);
      var own, x, y := Own(xs[0], price, aToB), Crossable(xs[1..], price, aToB), Crossable(ys, price, aToB);
      assert (y + x) + own == y + (x + own) && own + (x + y) == (own + x) + y;
    }
  }

  /** A tick, if it lies ahead. */
  function Own(t: Tick, price: nat, aToB: bool): seq<Tick> {
    if (if aToB then t.sqrtPrice < price else t.sqrtPrice > price) then [t] else []
  }

  lemma CrossableHead(ticks: seq<Tick>, price: nat, aToB: bool)
    requires ticks != []
    ensures var own, rest := Own(ticks[0], price, aToB), Crossable(ticks[1..], price, aToB);
            Crossable(ticks, price, aToB) == if aToB then rest + own else own + rest
  {}

  lemma {:induction false} NoneCrossable(ticks: seq<Tick>, price: nat, aToB: bool)
    requires forall i :: 0 <= i < |ticks| ==> if aToB then ticks[i].sqrtPrice >= price else ticks[i].sqrtPrice <= price
    ensures Crossable(ticks, price, aToB) == []
  {
    if ticks != [] { NoneCrossable(ticks[1..], price, aToB); }
  }

  lemma TicksSplit(nodes: seq<Node>, start: nat, end: nat)
    requires start <= end <= |nodes|
    ensures Ticks(nodes) == Ticks(nodes[..start]) + (Ticks(nodes[start..end]) + Ticks(nodes[end..]))
  {}

  /** The boundaries of a piece that reaches the price are the nearest ones of the full table, without a gap. */
  lemma PieceBoundaries(nodes: seq<Node>, start: nat, end: nat, price: nat, aToB: bool) returns (far: seq<Tick>)
    requires start <= end <= |nodes| && Reaches(nodes, start, end, price)
    ensures Crossable(Ticks(nodes), price, aToB) == Crossable(Ticks(nodes[start..end]), price, aToB) + far
  {
    hide Crossable;
    if aToB { NoneCrossable(Ticks(nodes[end..]), price, aToB); } else { NoneCrossable(Ticks(nodes[..start]), price, aToB); }
    TicksSplit(nodes, start, end);
    hide *;
    far := MiddlePart(Ticks(nodes[..start]), Ticks(nodes[start..end]), Ticks(nodes[end..]), price, aToB);
  }

  lemma MiddlePart(below: seq<Tick>, kept: seq<Tick>, above: seq<Tick>, price: nat, aToB: bool) returns (far: seq<Tick>)
    requires Crossable(if aToB then above else below, price, aToB) == []
    ensures Crossable(below + (kept + above), price, aToB) == Crossable(kept, price, aToB) + far
  {
    hide *;
    CrossableConcat(below, kept + above, price, aToB);
    CrossableConcat(kept, above, price, aToB);
    far := Crossable(if aToB then below else above, price, aToB);
  }

  function PoolWith(price: nat, liquidity: nat, feePips: nat, nodes: seq<Node>): ClmmState {
    ClmmState(price, liquidity, feePips, Ticks(nodes))
  }

  /** The windowed pool and the full one agree on every trade the window can price: those whose walk over the
      full table needs no more boundaries than the window holds. On every other trade the window answers nothing. */
  ghost predicate OnlyRefuses(whole: ClmmState, part: ClmmState, amountIn: nat, aToB: bool)
    requires whole.Valid() && part.Valid()
  {
    && (Quote(part, amountIn, aToB).Some? ==> Quote(whole, amountIn, aToB) == Quote(part, amountIn, aToB))
    && (Quote(part, amountIn, aToB).Some? <==>
          Quote(whole, amountIn, aToB).Some? && Needed(whole, amountIn, aToB) <= |Boundaries(part, aToB)|)
  }

  /** Any piece of the table that reaches the price only refuses, whichever price it was cut out around. */
  lemma PieceSound(nodes: seq<Node>, start: nat, end: nat, price: nat, liquidity: nat, feePips: nat,
                   amountIn: nat, aToB: bool)
    requires Table(nodes) && (start < end <= |nodes| || start == end == |nodes| == 0)
    requires Reaches(nodes, start, end, price) && MIN_SQRT_PRICE <= price <= MAX_SQRT_PRICE
    ensures var whole, part := PoolWith(price, liquidity, feePips, nodes),
                               PoolWith(price, liquidity, feePips, nodes[start..end]);
            whole.Valid() && part.Valid() && OnlyRefuses(whole, part, amountIn, aToB)
  {
    var whole := PoolWith(price, liquidity, feePips, nodes);
    var part := PoolWith(price, liquidity, feePips, nodes[start..end]);
    var far := PieceBoundaries(nodes, start, end, price, aToB);
    PieceValid(nodes, start, end);
    assert Boundaries(whole, aToB) == Boundaries(part, aToB) + far;
    assert part == whole.(ticks := part.ticks) && whole.Valid() && part.Valid();
    assert if nodes == [] then part == whole && whole.ticks == [] else whole.ticks != [] && part.ticks != [];
    hide *;
    if nodes == [] { NoTable(whole, amountIn, aToB); } else { PrefixSound(whole, part, far, amountIn, aToB); }
  }

  lemma PieceValid(nodes: seq<Node>, start: nat, end: nat)
    requires Table(nodes) && (start < end <= |nodes| || start == end == |nodes| == 0)
    ensures Ascending(Ticks(nodes)) && Ascending(Ticks(nodes[start..end]))
    ensures Ticks(nodes) == [] <==> nodes == []
    ensures Ticks(nodes[start..end]) == [] <==> nodes == []
    ensures nodes == [] ==> nodes[start..end] == nodes
  {}

  lemma NoTable(state: ClmmState, amountIn: nat, aToB: bool)
    requires state.Valid() && state.ticks == []
    ensures OnlyRefuses(state, state, amountIn, aToB)
  {}

  /** A window of positive size, cut out around the pool's current tick, only refuses. */
  lemma WindowSound(nodes: seq<Node>, center: int, window: nat, price: nat, liquidity: nat, feePips: nat,
                    amountIn: nat, aToB: bool)
    requires window > 0 && Table(nodes) && Centred(nodes, center, price)
    requires MIN_SQRT_PRICE <= price <= MAX_SQRT_PRICE
    ensures var whole, part := PoolWith(price, liquidity, feePips, nodes),
                               PoolWith(price, liquidity, feePips, SelectWindow(nodes, center, window));
            whole.Valid() && part.Valid() && OnlyRefuses(whole, part, amountIn, aToB)
  {
    WindowSplits(nodes, center, window, price);
    var (start, end) := WindowBounds(nodes, center, window);
    hide SelectWindow, WindowBounds, Reaches;
    PieceSound(nodes, start, end, price, liquidity, feePips, amountIn, aToB);
  }

  /** A window that was cut out around an earlier price, as the indexer's cache holds it, still yields the nearest
      boundaries in both directions exactly as long as the price has not passed a tick it dropped. */
  lemma CachedWindowIff(nodes: seq<Node>, start: nat, end: nat, price: nat)
    requires price > 0 && Table(nodes) && start < end <= |nodes|
    ensures (forall aToB :: Crossable(Ticks(nodes[start..end]), price, aToB) <= Crossable(Ticks(nodes), price, aToB))
            <==> Reaches(nodes, start, end, price)
  {
    if Reaches(nodes, start, end, price) {
      forall aToB ensures Crossable(Ticks(nodes[start..end]), price, aToB) <= Crossable(Ticks(nodes), price, aToB) {
        var far := PieceBoundaries(nodes, start, end, price, aToB);
      }
    } else if i: nat :| i < start && nodes[i].tick.sqrtPrice > price {
      PassedTick(nodes, start, end, price, i, false);
    } else {
      var i: nat :| end <= i < |nodes| && nodes[i].tick.sqrtPrice < price;
      PassedTick(nodes, start, end, price, i, true);
    }
  }

  /** Going back past a dropped tick, the first boundary is missing. */
  lemma PassedTick(nodes: seq<Node>, start: nat, end: nat, price: nat, i: nat, aToB: bool)
    requires price > 0 && Table(nodes) && start < end <= |nodes|
    requires if aToB then end <= i < |nodes| && nodes[i].tick.sqrtPrice < price
             else i < start && nodes[i].tick.sqrtPrice > price
    ensures !(Crossable(Ticks(nodes[start..end]), price, aToB) <= Crossable(Ticks(nodes), price, aToB))
  {
    var whole, part := Crossable(Ticks(nodes), price, aToB), Crossable(Ticks(nodes[start..end]), price, aToB);
    PieceValid(nodes, start, end);
    HeadIsNearest(Ticks(nodes), price, i, aToB);
    HeadIsMember(Ticks(nodes[start..end]), price, aToB);
    assert Ticks(nodes[start..end])[0] == nodes[start].tick;
    hide Crossable, Ticks;
    assert part != [];
    var k :| 0 <= k < end - start && part[0] == nodes[start..end][k].tick;
    assert nodes[start..end][k] == nodes[start + k];
    assert part[0] != whole[0];
  }

  /** The first boundary is at least as near as any other tick ahead. */
  lemma HeadIsNearest(ticks: seq<Tick>, price: nat, i: nat, aToB: bool)
    requires price > 0 && Ascending(ticks) && i < |ticks|
    requires if aToB then ticks[i].sqrtPrice < price else ticks[i].sqrtPrice > price
    ensures var bs := Crossable(ticks, price, aToB);
            bs != [] && Ahead(bs[0].sqrtPrice, ticks[i].sqrtPrice, aToB)
  {
    var bs := Crossable(ticks, price, aToB);
    CrossableMembers(ticks, price, aToB);
    CrossableTravels(ticks, price, aToB);
    hide Crossable;
    assert ticks[i] in bs;
    TravelOrdered(bs[0].sqrtPrice, bs[1..], aToB);
    assert bs == [bs[0]] + bs[1..];
  }

  lemma HeadIsMember(ticks: seq<Tick>, price: nat, aToB: bool)
    ensures var bs := Crossable(ticks, price, aToB);
            && (bs != [] ==> bs[0] in ticks)
            && (forall t :: t in ticks && (if aToB then t.sqrtPrice < price else t.sqrtPrice > price) ==> bs != [])
  {
    CrossableMembers(ticks, price, aToB);
    hide Crossable;
    assert Crossable(ticks, price, aToB) != [] ==> Crossable(ticks, price, aToB)[0] in Crossable(ticks, price, aToB);
  }

  /** A cached window whose price has passed a tick it dropped: the full table refuses, because liquidity ends at
      that tick, and the cached window quotes on. */
  lemma CachedWindowOverquotes()
    ensures exists nodes: seq<Node>, start: nat, end: nat, price: nat, liquidity: nat, amountIn: nat, aToB: bool ::
              && Table(nodes) && start < end <= |nodes| && !Reaches(nodes, start, end, price)
              && PoolWith(price, liquidity, 0, nodes).Valid() && PoolWith(price, liquidity, 0, nodes[start..end]).Valid()
              && Quote(PoolWith(price, liquidity, 0, nodes), amountIn, aToB).None?
              && Quote(PoolWith(price, liquidity, 0, nodes[start..end]), amountIn, aToB).Some?
  {
    var near, far := Tick(Q64 + 1, -1), Tick(100 * Q64, 0);
    var nodes := [Node(1, near), Node(2, far)];
    assert Table(nodes) && !Reaches(nodes, 1, 2, Q64) && nodes[1..2] == [nodes[1]];
    assert Ticks(nodes) == [near, far] && Ticks([nodes[1]]) == [far];
    WholeRefuses(near, far);
    PartQuotes(far);
    var whole, part := PoolWith(Q64, 1, 0, nodes), PoolWith(Q64, 1, 0, nodes[1..2]);
    assert whole == ClmmState(Q64, 1, 0, [near, far]) && part == ClmmState(Q64, 1, 0, [far]);
    hide *;
    assert Quote(whole, 10, false).None? && Quote(part, 10, false).Some?;
  }

  lemma WholeRefuses(near: Tick, far: Tick)
    requires near == Tick(Q64 + 1, -1) && far == Tick(100 * Q64, 0)
    ensures var state := ClmmState(Q64, 1, 0, [near, far]);
            state.Valid() && Quote(state, 10, false).None?
  {
    var c := Cursor(Q64, 1, 10, 0);
    assert [near, far][1..] == [far] && [far][1..] == [];
    assert Crossable([far], Q64, false) == [far];
    assert Crossable([near, far], Q64, false) == [near, far];
    CrossableTravels([near, far], Q64, false);
    StepSound(Q64, Q64 + 1, 1, 10, 0, false);
    assert NetInput(10, 0) == 10 && Covers(1, Q64, Q64 + 1, 1, false) && Covers(1, Q64, Q64 + 1, 10, false);
    StepAccounts(Q64, Q64 + 1, 1, 10, 0, false);
    var s := ComputeSwapStep(Q64, Q64 + 1, 1, 10, 0, false);
    assert s.next == Q64 + 1 && s.amountIn <= 1;
    assert s.fee <= 0;
    var m := Advance(c, Q64 + 1, 0, false);
    assert m.price == Q64 + 1 && m.remaining >= 9;
    hide ComputeSwapStep, NetInput, Covers, Releases, Crossable, Advance;
    assert ApplyNet(1, -1, false) == 0;
    assert Walk([near, far], c, 0, false) == Walk([near, far][1..], m.(liquidity := 0), 0, false) == m.(liquidity := 0);
  }

  lemma PartQuotes(far: Tick)
    requires far == Tick(100 * Q64, 0)
    ensures var state := ClmmState(Q64, 1, 0, [far]);
            state.Valid() && Quote(state, 10, false).Some?
  {
    var c := Cursor(Q64, 1, 10, 0);
    assert Crossable([far], Q64, false) == [far] by { assert [far][1..] == []; }
    AdvanceFacts(c, 100 * Q64, 0, false);
    StepSound(Q64, 100 * Q64, 1, 10, 0, false);
    assert NetInput(10, 0) == 10 && !Covers(1, Q64, 100 * Q64, 10, false);
    var m := Advance(c, 100 * Q64, 0, false);
    assert m.price != 100 * Q64 && m.remaining == 0;
    assert m.out <= 10;
    hide ComputeSwapStep, NetInput, Covers, Releases, Crossable, Advance, Bounded;
  }

  // --- the indexer's guard ---

  /** What the indexer makes of a freshly loaded window: a pool with at least one tick is kept with it, any
      other is dropped. */
  function Injected(pool: ClmmState, window: seq<Node>): Option<ClmmState> {
    if window == [] then None else Some(pool.(ticks := Ticks(window)))
  }

  /** Whatever the window size, a pool that is kept only refuses; it is dropped exactly if there is nothing to
      cut a window from or the window is empty. */
  lemma KeptPoolSound(nodes: seq<Node>, center: int, window: nat, price: nat, liquidity: nat, feePips: nat,
                      amountIn: nat, aToB: bool)
    requires Table(nodes) && Centred(nodes, center, price) && MIN_SQRT_PRICE <= price <= MAX_SQRT_PRICE
    ensures var whole := PoolWith(price, liquidity, feePips, nodes);
            var kept := Injected(ClmmState(price, liquidity, feePips, []), SelectWindow(nodes, center, window));
            && whole.Valid()
            && (kept.None? <==> window == 0 || nodes == [])
            && (kept.Some? ==> kept.value.Valid() && OnlyRefuses(whole, kept.value, amountIn, aToB))
  {
    assert |SelectWindow(nodes, center, window)| == Min(window, |nodes|);
    if window > 0 { WindowSound(nodes, center, window, price, liquidity, feePips, amountIn, aToB); }
    hide OnlyRefuses, SelectWindow, Centred;
  }

  function Boundaries(state: ClmmState, aToB: bool): seq<Tick> {
    Crossable(state.ticks, state.sqrtPrice, aToB)
  }

  /** How many boundaries the walk over a table looks at. */
  ghost function Needed(state: ClmmState, amountIn: nat, aToB: bool): nat
    requires state.Valid()
  {
    if state.feePips >= PIPS_DENOM then 0 else |QuoteLegs(state, amountIn, aToB)|
  }

  /** Two pools that differ only in how far their boundaries reach. */
  lemma PrefixSound(whole: ClmmState, part: ClmmState, far: seq<Tick>, amountIn: nat, aToB: bool)
    requires whole.Valid() && part.Valid() && whole.ticks != [] && part.ticks != []
    requires part == whole.(ticks := part.ticks)
    requires Boundaries(whole, aToB) == Boundaries(part, aToB) + far
    ensures OnlyRefuses(whole, part, amountIn, aToB)
  {
    CrossableTravels(whole.ticks, whole.sqrtPrice, aToB);
    CrossableTravels(part.ticks, part.sqrtPrice, aToB);
    if whole.feePips < PIPS_DENOM {
      WalkPrefix(Boundaries(part, aToB), far, Cursor(whole.sqrtPrice, whole.liquidity, amountIn, 0), whole.feePips, aToB);
    }
    hide Crossable, Walk, Legs, Travel, Ascending;
  }

  /** Why an empty window has to drop the pool: without ticks the engine would take it for a single infinite
      range and quote where the full table refuses. */
  lemma EmptyWindowOverquotes()
    ensures exists nodes: seq<Node>, center: int, price: nat, liquidity: nat ::
              && nodes != [] && Table(nodes) && Centred(nodes, center, price)
              && PoolWith(price, liquidity, 0, nodes).Valid()
              && PoolWith(price, liquidity, 0, SelectWindow(nodes, center, 0)).Valid()
              && Quote(PoolWith(price, liquidity, 0, nodes), 1, true).None?
              && Quote(PoolWith(price, liquidity, 0, SelectWindow(nodes, center, 0)), 1, true).Some?
  {
    var nodes := [Node(1, Tick(Q64 + 1, 0))];
    assert Table(nodes) && Centred(nodes, 0, Q64);
    assert SelectWindow(nodes, 0, 0) == [];
    assert PoolWith(Q64, 1, 0, nodes).Valid();
    hide SelectWindow, WindowBounds, Centred, Table;
    NoneCrossable(Ticks(nodes), Q64, true);
    assert Quote(PoolWith(Q64, 1, 0, nodes), 1, true).None?;
    hide Quote, Crossable;
    ClmmV2.SingleRangeNeverExceedsV2(1, 1, 1, 0, Q64, 1, true);
    assert PoolWith(Q64, 1, 0, []) == ClmmV2.SingleRange(Q64, 1, 0);
  }

  // --- the keys ---

  /** `bits as i32` for a 32-bit pattern. */
  function SignedBits(bits: nat): int
    requires bits < TWO_32
  {
    if bits < TWO_32 / 2 then bits else bits - TWO_32
  }

  const TICK_OFFSET: int := 443_636

  /** `score_from_content`: the cast to `u64` wraps a negative sum. */
  function Score(bits: nat): u64
    requires bits < TWO_32
  {
    (SignedBits(bits) + TICK_OFFSET) % TWO_64
  }

  /** Scores order ticks as their indices do exactly from the lowest legal tick upwards. */
  lemma ScoreKeepsOrder(a: nat, b: nat)
    requires a < TWO_32 && b < TWO_32 && SignedBits(a) < SignedBits(b)
    ensures Score(a) < Score(b) <==> SignedBits(a) >= -TICK_OFFSET || SignedBits(b) < -TICK_OFFSET
  {}

  function Shifted(nodes: seq<Node>, k: int): (shifted: seq<Node>)
    ensures |shifted| == |nodes|
    ensures forall i :: 0 <= i < |nodes| ==> shifted[i] == Node(nodes[i].key + k, nodes[i].tick)
  {
    seq(|nodes|, i requires 0 <= i < |nodes| => Node(nodes[i].key + k, nodes[i].tick))
  }

  /** Windowing by score and windowing by tick index select the same ticks. */
  lemma SameWindowByScore(nodes: seq<Node>, center: int, window: nat)
    ensures Ticks(SelectWindow(Shifted(nodes, TICK_OFFSET), center + TICK_OFFSET, window))
            == Ticks(SelectWindow(nodes, center, window))
  {
    SamePartition(nodes, Shifted(nodes, TICK_OFFSET), center, TICK_OFFSET);
    SameBounds(nodes, Shifted(nodes, TICK_OFFSET), center, center + TICK_OFFSET, window);
    var (start, end) := WindowBounds(nodes, center, window);
    hide WindowBounds, PartitionPoint;
    SameTicks(nodes, Shifted(nodes, TICK_OFFSET), start, end);
  }

  lemma SameBounds(xs: seq<Node>, ys: seq<Node>, x: int, y: int, window: nat)
    requires |xs| == |ys| && PartitionPoint(xs, x) == PartitionPoint(ys, y)
    ensures WindowBounds(xs, x, window) == WindowBounds(ys, y, window)
  {
    hide PartitionPoint;
  }

  lemma SameTicks(xs: seq<Node>, ys: seq<Node>, start: nat, end: nat)
    requires |xs| == |ys| && start <= end <= |xs| && forall i :: 0 <= i < |xs| ==> xs[i].tick == ys[i].tick
    ensures Ticks(xs[start..end]) == Ticks(ys[start..end])
  {
    hide Ticks;
  }

  lemma {:induction false} SamePartition(nodes: seq<Node>, shifted: seq<Node>, center: int, k: int)
    requires |shifted| == |nodes| && forall i :: 0 <= i < |nodes| ==> shifted[i].key == nodes[i].key + k
    ensures PartitionPoint(shifted, center + k) == PartitionPoint(nodes, center)
  {
    if nodes != [] { SamePartition(nodes[1..], shifted[1..], center, k); }
  }

  /** In numbers: every signed index is read back from its two's complement, and the score of a legal one is the
      index moved up by 443636. */
  lemma ScoreOfTick(t: int)
    requires -2_147_483_648 <= t <= 2_147_483_647
    ensures SignedBits(if t >= 0 then t else t + 4_294_967_296) == t
    ensures -443_636 <= t <= 443_636 ==> Score(if t >= 0 then t else t + 4_294_967_296) == t + 443_636
  {}

  // --- balance ---

  /** How many ticks lie below the centre. */
  function CountBelow(nodes: seq<Node>, center: int): nat {
    if nodes == [] then 0 else (if nodes[0].key < center then 1 else 0) + CountBelow(nodes[1..], center)
  }

  lemma {:induction false} CountIs(nodes: seq<Node>, center: int, b: nat)
    requires b <= |nodes| && forall i :: 0 <= i < |nodes| ==> (nodes[i].key < center <==> i < b)
    ensures CountBelow(nodes, center) == b
  {
    if nodes != [] { CountIs(nodes[1..], center, if b > 0 then b - 1 else 0); }
  }

  /** The window is full and balanced around the centre: half of it, rounded down, lies below, as long as there
      are that many ticks below and the rest above. The side that has too few is kept whole. */
  lemma WindowBalances(nodes: seq<Node>, center: int, window: nat)
    requires 0 < window < |nodes| && forall i, j :: 0 <= i < j < |nodes| ==> nodes[i].key < nodes[j].key
    ensures var kept := SelectWindow(nodes, center, window);
            var below, keptBelow := CountBelow(nodes, center), CountBelow(kept, center);
            && |kept| == window
            && (below >= window / 2 && |nodes| - below >= window - window / 2 ==> keptBelow == window / 2)
            && (below < window / 2 ==> keptBelow == below)
            && (|nodes| - below < window - window / 2 ==> window - keptBelow == |nodes| - below)
  {
    var pos := PartitionPoint(nodes, center);
    var (start, end) := WindowBounds(nodes, center, window);
    assert forall i :: pos < i < |nodes| ==> nodes[i].key > nodes[pos].key;
    CountIs(nodes, center, pos);
    CountIs(nodes[start..end], center, Min(end, pos) - start);
    hide CountBelow, PartitionPoint;
  }

  // --- nearest by rank ---

  function Dist(nodes: seq<Node>, i: nat, center: int): nat
    requires i < |nodes|
  {
    if nodes[i].key >= center then nodes[i].key - center else center - nodes[i].key
  }

  /** No tick outside `[start, end)` is nearer to the centre than one inside. */
  ghost predicate Nearest(nodes: seq<Node>, center: int, start: nat, end: nat)
    requires start <= end <= |nodes|
  {
    forall i, j :: start <= i < end && (0 <= j < start || end <= j < |nodes|) ==>
      Dist(nodes, i, center) <= Dist(nodes, j, center)
  }

  /** The window is balanced by rank. It holds the ticks nearest by distance exactly when, on either side, its
      far end is no further than the first tick dropped on the other. */
  lemma NearestIff(nodes: seq<Node>, center: int, window: nat)
    requires 0 < window < |nodes| && forall i, j :: 0 <= i < j < |nodes| ==> nodes[i].key < nodes[j].key
    ensures var (start, end) := WindowBounds(nodes, center, window);
            Nearest(nodes, center, start, end) <==>
              && (start > 0 ==> Dist(nodes, end - 1, center) <= Dist(nodes, start - 1, center))
              && (end < |nodes| ==> Dist(nodes, start, center) <= Dist(nodes, end, center))
  {
    var (start, end) := WindowBounds(nodes, center, window);
    hide WindowBounds;
    if (start > 0 ==> Dist(nodes, end - 1, center) <= Dist(nodes, start - 1, center))
       && (end < |nodes| ==> Dist(nodes, start, center) <= Dist(nodes, end, center)) {
      forall i, j | start <= i < end && (0 <= j < start || end <= j < |nodes|)
        ensures Dist(nodes, i, center) <= Dist(nodes, j, center)
      {
        assert j < start ==> nodes[j].key <= nodes[start - 1].key < center && nodes[start - 1].key < nodes[i].key;
        assert j >= end ==> nodes[j].key >= nodes[end].key > nodes[i].key && nodes[end].key >= center;
        assert nodes[start].key <= nodes[i].key <= nodes[end - 1].key;
      }
    }
  }

  /** A table on which a kept tick is further from the centre than a dropped one. */
  lemma WindowIsByRank()
    ensures exists nodes: seq<Node>, center: int, price: nat ::
              && Table(nodes) && Centred(nodes, center, price) && MIN_SQRT_PRICE <= price <= MAX_SQRT_PRICE
              && var (start, end) := WindowBounds(nodes, center, 2);
                 !Nearest(nodes, center, start, end)
  {
    var nodes := [Node(0, Tick(Q64, 0)), Node(90, Tick(Q64 + 90, 0)), Node(91, Tick(Q64 + 91, 0))];
    assert Table(nodes) && Centred(nodes, 50, Q64 + 50);
    assert PartitionPoint(nodes[1..], 50) == 0;
    assert PartitionPoint(nodes, 50) == 1;
    assert WindowBounds(nodes, 50, 2) == (0, 2);
    assert Dist(nodes, 0, 50) > Dist(nodes, 2, 50);
  }
}
