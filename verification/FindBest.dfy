/** The whole scan: the best opportunity over all cycles, and what it is guaranteed to be. */
module FindBest {
  import opened Arith
  import opened Cycles
  import opened CycleLaws
  import opened Scanner
  import opened Sizing
  import Amm
  import ClmmBounds

  /** Every route before the first one on which `o` was found nets less at every grid input. */
  ghost predicate FirstRoute(book: Book, params: ScanParams, routes: seq<Route>, o: Opportunity)
    requires ValidBook(book)
  {
    exists k :: 0 <= k < |routes| && routes[k] == o.route && BeatsRoutes(book, params, routes[..k], o)
  }

  ghost predicate BeatsRoutes(book: Book, params: ScanParams, routes: seq<Route>, o: Opportunity)
    requires ValidBook(book)
  {
    forall r :: r in routes ==> BeatsAll(book, r, params, params.candidateInputs, o)
  }

  /** `best` is an evaluation on one of the routes, and no grid input on any of them nets more. */
  ghost predicate BestOver(book: Book, params: ScanParams, routes: seq<Route>, best: Option<Opportunity>)
    requires ValidBook(book)
  {
    && (best.Some? ==>
          && best.value.route in routes
          && InSpan(params, best.value.inputAmount)
          && EvaluateInput(book, best.value.route, params, best.value.inputAmount) == best
          && FirstRoute(book, params, routes, best.value))
    && (forall r, x :: r in routes && x in params.candidateInputs && EvaluateInput(book, r, params, x).Some? ==>
          best.Some? && EvaluateInput(book, r, params, x).value.netProfit <= best.value.netProfit)
  }

  ghost predicate ValidPools(pools: seq<PoolState>) {
    forall i :: 0 <= i < |pools| ==> ValidPool(pools[i])
  }

  /** An opportunity as the scan reports it: exactly what evaluating its own cycle and input gives. */
  ghost predicate Reported(pools: seq<PoolState>, params: ScanParams, o: Opportunity) {
    && ValidBook(ById(pools))
    && SimpleCycle(pools, params.baseToken, params.maxHops, o.route)
    && EvaluateInput(ById(pools), o.route, params, o.inputAmount) == Some(o)
  }

  /** ... in the order of the enumeration: of equally good cycles the scan reports the first. */
  ghost predicate FoundFirst(pools: seq<PoolState>, params: ScanParams, o: Opportunity)
    requires ValidBook(ById(pools))
  {
    exists adj :: AdjacencyOf(adj, pools)
      && FirstRoute(ById(pools), params,
                    FoundFrom(adj, params.baseToken, Neighbours(adj, params.baseToken), params.maxHops, {params.baseToken}, []),
                    o)
  }

  /** The scan's promise over all simple cycles of the pool graph. */
  ghost predicate BestCycle(pools: seq<PoolState>, params: ScanParams, best: Option<Opportunity>)
    requires ValidBook(ById(pools))
  {
    && (best.Some? ==>
          && Reported(pools, params, best.value) && InSpan(params, best.value.inputAmount)
          && FoundFirst(pools, params, best.value))
    && (forall r, x | SimpleCycle(pools, params.baseToken, params.maxHops, r) && x in params.candidateInputs ::
          EvaluateInput(ById(pools), r, params, x).Some? ==>
            best.Some? && EvaluateInput(ById(pools), r, params, x).value.netProfit <= best.value.netProfit)
  }

  /** The size search of every cycle comes to an end. */
  ghost predicate SearchesEnd(pools: seq<PoolState>, params: ScanParams)
    requires ValidPools(pools)
  {
    BookIsValid(pools);
    forall r :: SimpleCycle(pools, params.baseToken, params.maxHops, r) ==> SearchEnds(ById(pools), r, params)
  }

  /** It does as long as the largest `u64` is not a grid input, or is no size any cycle can be quoted at. */
  lemma SmallGridsEnd(pools: seq<PoolState>, params: ScanParams)
    requires ValidPools(pools) && ValidBook(ById(pools))
    requires TWO_64 - 1 in params.candidateInputs ==>
               forall r :: SimpleCycle(pools, params.baseToken, params.maxHops, r) ==>
                 Simulate(ById(pools), r, TWO_64 - 1).None?
    ensures SearchesEnd(pools, params)
  {
    hide Simulate, SimpleCycle, Window, ById, ValidBook, ValidPools;
  }

  lemma BookIsValid(pools: seq<PoolState>)
    requires ValidPools(pools)
    ensures ValidBook(ById(pools))
  {
    ByIdHolds(pools);
  }

  /** `find_best`. Whatever size the optimizer proposes, the result nets at least as much as every
      simple cycle at every grid input, and it is exactly what evaluating its own route and input gives. */
  method FindBest(pools: seq<PoolState>, params: ScanParams) returns (best: Option<Opportunity>)
    requires ValidPools(pools) && SearchesEnd(pools, params)
    ensures ValidBook(ById(pools)) && BestCycle(pools, params, best)
  {
    hide *;
    BookIsValid(pools);
    var book := ById(pools);
    var adjacency := BuildAdjacency(pools);
    IsAdjacency(adjacency, pools);
    var cycles := FindCycles(adjacency, params.baseToken, params.maxHops);
    CyclesEnumerated(pools, adjacency, params.baseToken, params.maxHops);
    best := None;
    NothingBest(book, params);
    assert cycles[..0] == [];
    for i := 0 to |cycles|
      invariant BestOver(book, params, cycles[..i], best)
    {
      EndsOn(pools, params, cycles[i]);
      var opp := SizeRoute(book, cycles[i], params);
      assert cycles[..i + 1] == cycles[..i] + [cycles[i]];
      BestExtends(book, params, cycles[..i], cycles[i], best, opp);
      if opp.Some? && (best.None? || opp.value.netProfit > best.value.netProfit) {
        best := opp;
      }
    }
    assert cycles[..|cycles|] == cycles;
    BestOverCycles(pools, params, adjacency, cycles, best);
  }

  lemma IsAdjacency(adj: Adjacency, pools: seq<PoolState>)
    requires forall t :: Neighbours(adj, t) == EdgesFrom(pools, t)
    ensures AdjacencyOf(adj, pools)
  {}

  lemma NothingBest(book: Book, params: ScanParams)
    requires ValidBook(book)
    ensures BestOver(book, params, [], None)
  {}

  lemma EndsOn(pools: seq<PoolState>, params: ScanParams, r: Route)
    requires ValidPools(pools) && SearchesEnd(pools, params)
    requires SimpleCycle(pools, params.baseToken, params.maxHops, r)
    ensures ValidBook(ById(pools)) && SearchEnds(ById(pools), r, params)
  {
    BookIsValid(pools);
    hide SearchEnds, SimpleCycle, ValidPools, ValidBook;
  }

  lemma BestExtends(book: Book, params: ScanParams, routes: seq<Route>, r: Route,
                    best: Option<Opportunity>, opp: Option<Opportunity>)
    requires ValidBook(book) && BestOver(book, params, routes, best) && Sized(book, r, params, opp)
    ensures BestOver(book, params, routes + [r],
                     if opp.Some? && (best.None? || opp.value.netProfit > best.value.netProfit) then opp else best)
  {
    if opp.Some? { EvaluationInput(book, r, params, opp.value.inputAmount); }
    hide EvaluateInput, ValidBook;
    var all := routes + [r];
    if opp.Some? && (best.None? || opp.value.netProfit > best.value.netProfit) {
      assert all[..|routes|] == routes && all[|routes|] == r;
      assert BeatsRoutes(book, params, routes, opp.value);
    } else if best.Some? {
      var k :| 0 <= k < |routes| && routes[k] == best.value.route && BeatsRoutes(book, params, routes[..k], best.value);
      assert all[..k] == routes[..k] && all[k] == routes[k];
    }
  }

  lemma BestOverCycles(pools: seq<PoolState>, params: ScanParams, adj: Adjacency, cycles: seq<Route>,
                       best: Option<Opportunity>)
    requires AdjacencyOf(adj, pools)
    requires cycles == FoundFrom(adj, params.baseToken, Neighbours(adj, params.baseToken), params.maxHops,
                                 {params.baseToken}, [])
    requires ValidBook(ById(pools)) && BestOver(ById(pools), params, cycles, best)
    requires forall r :: r in cycles <==> SimpleCycle(pools, params.baseToken, params.maxHops, r)
    ensures BestCycle(pools, params, best)
  {
    hide EvaluateInput, SimpleCycle, FirstRoute, FoundFrom, AdjacencyOf;
  }

  // --- no gain inside one pool, so no pool twice ---

  /** Quoting a pool there and back on one snapshot never gains, whatever its model. */
  lemma PoolRoundTrip(p: PoolState, aToB: bool, input: u64)
    requires ValidPool(p) && QuoteHop(p, aToB, input).Some?
    requires QuoteHop(p, !aToB, QuoteHop(p, aToB, input).value).Some?
    ensures QuoteHop(p, !aToB, QuoteHop(p, aToB, input).value).value <= input
  {
    match p.kind
    case V2(a, b, fee) =>
      if aToB { Amm.RoundTripLoses(input, a, b, fee); } else { Amm.RoundTripLoses(input, b, a, fee); }
    case Clmm(state) => ClmmBounds.RoundTripNeverGains(state, input, aToB);
  }

  /** Every opportunity of a scan over pools with unique ids uses each pool once. */
  lemma OpportunityPoolsDistinct(pools: seq<PoolState>, params: ScanParams, o: Opportunity)
    requires UniqueIds(pools) && Reported(pools, params, o)
    ensures forall i, j :: 0 <= i < j < |o.route| ==> o.route[i].poolId != o.route[j].poolId
  {
    forall i, j | 0 <= i < j < |o.route| ensures o.route[i].poolId != o.route[j].poolId {
      if o.route[i].poolId == o.route[j].poolId {
        RepeatedPoolIsRoundTrip(pools, params.baseToken, params.maxHops, o.route, i, j);
        TwoHopsOneOutput(ById(pools), o.route, params, o.inputAmount);
      }
    }
  }

  lemma TwoHopsOneOutput(book: Book, route: Route, params: ScanParams, input: u64)
    requires ValidBook(book) && |route| == 2 && route[0].poolId == route[1].poolId && route[1].aToB == !route[0].aToB
    ensures EvaluateInput(book, route, params, input).None?
  {
    hide QuoteHop, ValidPool;
    var id := route[0].poolId;
    if id in book && QuoteHop(book[id], route[0].aToB, input).Some? {
      var out := QuoteHop(book[id], route[0].aToB, input).value;
      OutputsStep(book, route, input);
      OutputsStep(book, route[1..], out);
      OutputsEnd(book, route[1..][1..], 0);
      if QuoteHop(book[id], route[1].aToB, out).Some? {
        PoolRoundTrip(book[id], route[0].aToB, input);
      }
    }
  }
}
