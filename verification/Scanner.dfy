/** Route simulation, sizing and the best-of search. */
module Scanner {
  import opened Arith
  import opened ClmmQuote
  import opened Cycles
  import opened Sizing
  import Amm
  import Flash

  /** The snapshot by pool id; of two pools with one id the later wins. */
  type Book = map<string, PoolState>

  function ById(pools: seq<PoolState>): Book {
    if pools == [] then map[]
    else
      var last := pools[|pools| - 1];
      ById(pools[..|pools| - 1])[last.id := last]
  }

  ghost predicate ValidPool(p: PoolState) {
    p.kind.Clmm? ==> p.kind.state.Valid()
  }

  ghost predicate ValidBook(book: Book) {
    forall id :: id in book ==> ValidPool(book[id])
  }

  lemma {:induction false} ByIdHolds(pools: seq<PoolState>)
    ensures forall id :: id in ById(pools) ==> ById(pools)[id] in pools && ById(pools)[id].id == id
    ensures UniqueIds(pools) ==> forall i :: 0 <= i < |pools| ==>
              pools[i].id in ById(pools) && ById(pools)[pools[i].id] == pools[i]
  {
    if pools != [] {
      var n := |pools| - 1;
      ByIdHolds(pools[..n]);
      assert forall p :: p in pools[..n] ==> p in pools;
      if UniqueIds(pools) {
        forall i | 0 <= i < |pools| ensures pools[i].id in ById(pools) && ById(pools)[pools[i].id] == pools[i] {
          if i < n { assert pools[..n][i] == pools[i]; }
        }
      }
    }
  }

  /** Of several pools with one id the last is held. */
  lemma {:induction false} LaterWins(pools: seq<PoolState>, i: nat)
    requires i < |pools| && forall j :: i < j < |pools| ==> pools[j].id != pools[i].id
    ensures pools[i].id in ById(pools) && ById(pools)[pools[i].id] == pools[i]
  {
    var n := |pools| - 1;
    if i < n {
      assert forall j :: i < j < n ==> pools[..n][j].id != pools[..n][i].id;
      LaterWins(pools[..n], i);
      assert pools[n].id != pools[i].id;
    }
  }

  // --- simulation ---

  /** `quote_hop`: each pool is priced by its own model. */
  function QuoteHop(p: PoolState, aToB: bool, amountIn: u64): Option<u64>
    requires ValidPool(p)
  {
    match p.kind
    case V2(reserveA, reserveB, feeBps) =>
      if aToB then Amm.GetAmountOut(amountIn, reserveA, reserveB, feeBps)
      else Amm.GetAmountOut(amountIn, reserveB, reserveA, feeBps)
    case Clmm(state) => Quote(state, amountIn, aToB)
  }

  /** The output after each hop, or nothing if some hop cannot be quoted. */
  function HopOutputs(book: Book, route: Route, amount: u64): (r: Option<seq<u64>>)
    requires ValidBook(book)
    ensures r.Some? ==> |r.value| == |route|
  {
    if route == [] then Some([])
    else if route[0].poolId !in book then None
    else
      match QuoteHop(book[route[0].poolId], route[0].aToB, amount)
      case None => None
      case Some(out) =>
        match HopOutputs(book, route[1..], out)
        case None => None
        case Some(outs) => Some([out] + outs)
  }

  function Simulate(book: Book, route: Route, input: u64): Option<u64>
    requires ValidBook(book)
  {
    if route == [] then None
    else
      match HopOutputs(book, route, input)
      case None => None
      case Some(outs) => Some(outs[|outs| - 1])
  }

  /** What hop number `i` is fed: the input, or the output before it. */
  function Fed(input: u64, outs: seq<u64>, i: nat): u64
    requires i <= |outs|
  {
    if i == 0 then input else outs[i - 1]
  }

  ghost predicate Quoted(book: Book, h: Hop, amountIn: u64, out: u64)
    requires ValidBook(book)
  {
    h.poolId in book && QuoteHop(book[h.poolId], h.aToB, amountIn) == Some(out)
  }

  /** Hop by hop, each output is its pool's quote for the output before it, the first for the input. */
  ghost predicate QuotedAlong(book: Book, route: Route, input: u64, outs: seq<u64>)
    requires ValidBook(book)
  {
    |outs| == |route| && forall i :: 0 <= i < |route| ==> Quoted(book, route[i], Fed(input, outs, i), outs[i])
  }

  lemma {:induction false} OutputsIff(book: Book, route: Route, input: u64, outs: seq<u64>)
    requires ValidBook(book)
    ensures HopOutputs(book, route, input) == Some(outs) <==> QuotedAlong(book, route, input, outs)
  {
    hide QuoteHop, ValidPool;
    if route == [] {
      OutputsEnd(book, route, input);
    } else {
      OutputsStep(book, route, input);
      if outs != [] {
        OutputsIff(book, route[1..], outs[0], outs[1..]);
        QuotedStep(book, route, input, outs);
        assert outs == [outs[0]] + outs[1..];
      }
      if HopOutputs(book, route, input) == Some(outs) { assert outs != [] && outs[1..] == ([outs[0]] + outs[1..])[1..]; }
    }
  }

  lemma QuotedStep(book: Book, route: Route, input: u64, outs: seq<u64>)
    requires ValidBook(book) && route != [] && outs != []
    ensures QuotedAlong(book, route, input, outs) <==>
              Quoted(book, route[0], input, outs[0]) && QuotedAlong(book, route[1..], outs[0], outs[1..])
  {
    hide Quoted;
    assert forall i :: 0 <= i < |outs| - 1 ==> Fed(outs[0], outs[1..], i) == Fed(input, outs, i + 1);
    if QuotedAlong(book, route[1..], outs[0], outs[1..]) && Quoted(book, route[0], input, outs[0]) {
      forall i | 0 <= i < |route| ensures Quoted(book, route[i], Fed(input, outs, i), outs[i]) {
        if i > 0 { assert route[i] == route[1..][i - 1] && outs[i] == outs[1..][i - 1]; }
      }
    }
    if QuotedAlong(book, route, input, outs) {
      forall i | 0 <= i < |route[1..]| ensures Quoted(book, route[1..][i], Fed(outs[0], outs[1..], i), outs[1..][i]) {
        assert route[1..][i] == route[i + 1] && outs[1..][i] == outs[i + 1];
      }
    }
  }

  /** No outputs fit the route. */
  ghost predicate Unquotable(book: Book, route: Route, input: u64)
    requires ValidBook(book)
  {
    forall outs :: !QuotedAlong(book, route, input, outs)
  }

  lemma OutputsMean(book: Book, route: Route, input: u64)
    requires ValidBook(book)
    ensures var r := HopOutputs(book, route, input);
            if r.Some? then QuotedAlong(book, route, input, r.value) else Unquotable(book, route, input)
  {
    forall outs ensures HopOutputs(book, route, input) == Some(outs) <==> QuotedAlong(book, route, input, outs) {
      OutputsIff(book, route, input, outs);
    }
    hide QuotedAlong, HopOutputs;
  }

  /** `simulate_collect`: the outputs hop by hop, and nothing exactly if there are none or the route is empty. */
  method SimulateCollect(book: Book, route: Route, input: u64) returns (r: Option<seq<u64>>)
    requires ValidBook(book)
    ensures r == if route == [] then None else HopOutputs(book, route, input)
    ensures r.Some? ==> route != [] && QuotedAlong(book, route, input, r.value)
    ensures r.None? ==> route == [] || Unquotable(book, route, input)
  {
    if route == [] {
      return None;
    }
    OutputsMean(book, route, input);
    hide QuotedAlong, Unquotable, HopOutputs, QuoteHop, ValidPool;
    ghost var full := HopOutputs(book, route, input);
    var amount := input;
    var outs: seq<u64> := [];
    ghost var rest := full;
    assert route[0..] == route;
    for i := 0 to |route|
      invariant rest == HopOutputs(book, route[i..], amount)
      invariant full.Some? == rest.Some?
      invariant full.Some? ==> full.value == outs + rest.value
    {
      var hop := route[i];
      OutputsStep(book, route[i..], amount);
      assert route[i..][1..] == route[i + 1..];
      if hop.poolId !in book {
        return None;
      }
      var quote := QuoteHop(book[hop.poolId], hop.aToB, amount);
      if quote.None? {
        return None;
      }
      amount := quote.value;
      outs := outs + [amount];
      rest := HopOutputs(book, route[i + 1..], amount);
    }
    OutputsEnd(book, route[|route|..], amount);
    assert outs + [] == outs;
    return Some(outs);
  }

  lemma OutputsStep(book: Book, route: Route, amount: u64)
    requires ValidBook(book) && route != []
    ensures var all := HopOutputs(book, route, amount);
            if route[0].poolId !in book || QuoteHop(book[route[0].poolId], route[0].aToB, amount).None? then all.None?
            else
              var out := QuoteHop(book[route[0].poolId], route[0].aToB, amount).value;
              var more := HopOutputs(book, route[1..], out);
              all.Some? == more.Some? && (all.Some? ==> all.value == [out] + more.value)
  {
    hide QuoteHop, ValidPool;
  }

  lemma OutputsEnd(book: Book, route: Route, amount: u64)
    requires ValidBook(book) && route == []
    ensures HopOutputs(book, route, amount) == Some([])
  {}

  // --- valuing one size ---

  datatype ScanParams = ScanParams(
    baseToken: string,
    maxHops: nat,
    candidateInputs: seq<u64>,
    gasCost: u64,
    flashFeeBps: u64,
    minProfit: u64)

  datatype Opportunity = Opportunity(
    route: Route,
    inputAmount: u64,
    outputAmount: u64,
    hopOutputs: seq<u64>,
    grossProfit: u64,
    flashFee: u64,
    netProfit: u64)

  function FlashFee(params: ScanParams, input: u64): u64 {
    if params.flashFeeBps > 0 then Flash.QuoteFeeBps(input, params.flashFeeBps) else 0
  }

  /** `net_signed`. */
  function NetSigned(book: Book, route: Route, params: ScanParams, input: u64): Option<i128>
    requires ValidBook(book)
  {
    match Simulate(book, route, input)
    case None => None
    case Some(output) =>
      var net: int := output - input - params.gasCost - FlashFee(params, input);
      Some(net)
  }

  function SaturatingSub(a: u64, b: u64): u64 {
    if a >= b then a - b else 0
  }

  /** `evaluate_input`. */
  function EvaluateInput(book: Book, route: Route, params: ScanParams, input: u64): Option<Opportunity>
    requires ValidBook(book)
  {
    if route == [] then None
    else
      match HopOutputs(book, route, input)
      case None => None
      case Some(outs) =>
        var output := outs[|outs| - 1];
        if output <= input then None
        else
          var gross: u64 := output - input;
          var fee := FlashFee(params, input);
          var net := SaturatingSub(SaturatingSub(gross, params.gasCost), fee);
          if net < params.minProfit then None
          else Some(Opportunity(route, input, output, outs, gross, fee, net))
  }

  /** A reported profit is the exact profit precisely when the output covers input, gas and fee; any
      positive profit floor guarantees that. */
  lemma NetProfitExact(book: Book, route: Route, params: ScanParams, input: u64)
    requires ValidBook(book) && EvaluateInput(book, route, params, input).Some?
    ensures var o := EvaluateInput(book, route, params, input).value;
            && o.outputAmount > input && o.inputAmount == input && o.route == route
            && Simulate(book, route, input) == Some(o.outputAmount)
            && HopOutputs(book, route, input) == Some(o.hopOutputs)
            && o.grossProfit == o.outputAmount - input
            && (o.netProfit == o.outputAmount - input - params.gasCost - FlashFee(params, input)
                <==> o.outputAmount >= input + params.gasCost + FlashFee(params, input))
            && (params.minProfit > 0 ==>
                  NetSigned(book, route, params, input) == Some(o.netProfit) && o.netProfit >= params.minProfit)
  {
    hide HopOutputs, Flash.QuoteFeeBps;
  }

  /** With a positive floor the optimizer's objective and the evaluation agree on what is worth taking. */
  lemma EvaluationFollowsObjective(book: Book, route: Route, params: ScanParams, input: u64)
    requires ValidBook(book) && route != [] && params.minProfit > 0
    ensures var v := NetSigned(book, route, params, input);
            EvaluateInput(book, route, params, input).Some? <==> v.Some? && v.value >= params.minProfit
  {
    hide HopOutputs, Flash.QuoteFeeBps;
  }

  /** The whole evaluation in plain numbers: a size is reported exactly when it can be simulated, gains, and its
      net profit, floored at 0, meets the floor; and every field of the report is the simulated one. */
  lemma EvaluationInNumbers(book: Book, route: Route, params: ScanParams, input: u64)
    requires ValidBook(book)
    ensures var r, outs := EvaluateInput(book, route, params, input), HopOutputs(book, route, input);
            if route == [] || outs.None? then r.None?
            else
              var output := outs.value[|route| - 1];
              var fee := Flash.QuoteFeeBps(input, params.flashFeeBps);
              var exact := output - input - params.gasCost - fee;
              var net := if exact > 0 then exact else 0;
              && (r.Some? <==> output > input && net >= params.minProfit)
              && (r.Some? ==> r.value == Opportunity(route, input, output, outs.value, output - input, fee, net))
  {
    NoRateNoFee(input);
    hide HopOutputs, Flash.QuoteFeeBps;
  }

  lemma NoRateNoFee(input: u64)
    ensures Flash.QuoteFeeBps(input, 0) == 0
  {}

  // --- sizing a route ---

  /** Of the sizes tried, the first one at which `o` was found comes before every other that nets as much. */
  ghost predicate Earliest(book: Book, route: Route, params: ScanParams, tried: seq<u64>, o: Opportunity)
    requires ValidBook(book)
  {
    exists k :: 0 <= k < |tried| && tried[k] == o.inputAmount && BeatsAll(book, route, params, tried[..k], o)
  }

  ghost predicate BeatsAll(book: Book, route: Route, params: ScanParams, tried: seq<u64>, o: Opportunity)
    requires ValidBook(book)
  {
    forall x :: x in tried && EvaluateInput(book, route, params, x).Some? ==>
      EvaluateInput(book, route, params, x).value.netProfit < o.netProfit
  }

  /** No candidate beats `best`, and `best` is the first of the evaluations tried that none beats. */
  ghost predicate BestOf(book: Book, route: Route, params: ScanParams, tried: seq<u64>, best: Option<Opportunity>)
    requires ValidBook(book)
  {
    && (best.Some? ==>
          && best.value.inputAmount in tried
          && EvaluateInput(book, route, params, best.value.inputAmount) == best
          && Earliest(book, route, params, tried, best.value))
    && (forall x :: x in tried && EvaluateInput(book, route, params, x).Some? ==>
          best.Some? && EvaluateInput(book, route, params, x).value.netProfit <= best.value.netProfit)
  }

  method MinMax(xs: seq<u64>) returns (lo: u64, hi: u64)
    requires xs != []
    ensures lo in xs && hi in xs && forall x :: x in xs ==> lo <= x <= hi
  {
    lo, hi := xs[0], xs[0];
    for i := 1 to |xs|
      invariant lo in xs && hi in xs && forall j :: 0 <= j < i ==> lo <= xs[j] <= hi
    {
      if xs[i] < lo { lo := xs[i]; }
      if xs[i] > hi { hi := xs[i]; }
    }
  }

  /** The comparison loop over the candidate sizes. */
  method PickBest(book: Book, route: Route, params: ScanParams, candidates: seq<u64>) returns (best: Option<Opportunity>)
    requires ValidBook(book)
    ensures BestOf(book, route, params, candidates, best)
  {
    hide EvaluateInput;
    best := None;
    for i := 0 to |candidates|
      invariant BestOf(book, route, params, candidates[..i], best)
    {
      var opp := EvaluateInput(book, route, params, candidates[i]);
      assert candidates[..i + 1] == candidates[..i] + [candidates[i]];
      EvaluationInput(book, route, params, candidates[i]);
      BestOfExtends(book, route, params, candidates[..i], candidates[i], best);
      if opp.Some? && (best.None? || opp.value.netProfit > best.value.netProfit) {
        best := opp;
      }
    }
    assert candidates[..|candidates|] == candidates;
  }

  lemma BestOfExtends(book: Book, route: Route, params: ScanParams, tried: seq<u64>, x: u64, best: Option<Opportunity>)
    requires ValidBook(book) && BestOf(book, route, params, tried, best)
    ensures var opp := EvaluateInput(book, route, params, x);
            BestOf(book, route, params, tried + [x],
                   if opp.Some? && (best.None? || opp.value.netProfit > best.value.netProfit) then opp else best)
  {
    var opp := EvaluateInput(book, route, params, x);
    EvaluationInput(book, route, params, x);
    hide EvaluateInput;
    var all := tried + [x];
    if opp.Some? && (best.None? || opp.value.netProfit > best.value.netProfit) {
      assert all[..|tried|] == tried && all[|tried|] == x;
    } else if best.Some? {
      var k :| 0 <= k < |tried| && tried[k] == best.value.inputAmount && BeatsAll(book, route, params, tried[..k], best.value);
      assert all[..k] == tried[..k] && all[k] == tried[k];
    }
  }

  lemma EvaluationInput(book: Book, route: Route, params: ScanParams, input: u64)
    requires ValidBook(book)
    ensures var o := EvaluateInput(book, route, params, input);
            o.Some? ==> o.value.inputAmount == input && o.value.route == route && route != []
  {
    hide HopOutputs, FlashFee;
  }

  /** The closure handed to the optimizer. */
  function ObjectiveOf(book: Book, route: Route, params: ScanParams): Objective
    requires ValidBook(book)
  {
    (x: u64) => NetSigned(book, route, params, x)
  }

  /** The size search over the span of the grid comes to an end. */
  ghost predicate SearchEnds(book: Book, route: Route, params: ScanParams)
    requires ValidBook(book)
  {
    forall lo, hi :: SpanOf(params, lo, hi) && lo < hi ==> ScanEnds(ObjectiveOf(book, route, params), lo, hi)
  }

  /** The smallest and the largest grid input. */
  ghost predicate SpanOf(params: ScanParams, lo: u64, hi: u64) {
    lo in params.candidateInputs && hi in params.candidateInputs && forall x :: x in params.candidateInputs ==> lo <= x <= hi
  }

  /** `size_route`: the best of the grid and, if it spans a range, of one more size inside it. */
  method SizeRoute(book: Book, route: Route, params: ScanParams) returns (best: Option<Opportunity>)
    requires ValidBook(book) && SearchEnds(book, route, params)
    ensures Sized(book, route, params, best)
    ensures forall peak: u64 :: PeakedGrid(book, route, params, peak) ==> Optimal(book, route, params, best)
  {
    if route == [] || params.candidateInputs == [] {
      NothingToSize(book, route, params);
      return None;
    }
    var lo, hi := MinMax(params.candidateInputs);
    assert SpanOf(params, lo, hi);
    var candidates := params.candidateInputs;
    ghost var optimum: Option<(u64, i128)> := None;
    if hi > lo {
      var r := TernaryMax(ObjectiveOf(book, route, params), lo, hi);
      optimum := r;
      if r.Some? {
        candidates := candidates + [r.value.0];
      }
    }
    best := PickBest(book, route, params, candidates);
    SizingConcludes(book, route, params, lo, hi, optimum, candidates, best);
  }

  /** A size inside the span of the grid. */
  ghost predicate InSpan(params: ScanParams, x: u64) {
    exists a, b :: a in params.candidateInputs && b in params.candidateInputs && a <= x <= b
  }

  /** The result is an evaluation at a size inside the span of the grid and no grid size beats it. It is the first
      such grid size, or a size that strictly beats the whole grid. */
  ghost predicate Sized(book: Book, route: Route, params: ScanParams, best: Option<Opportunity>)
    requires ValidBook(book)
  {
    && (best.Some? ==>
          && EvaluateInput(book, route, params, best.value.inputAmount) == best
          && InSpan(params, best.value.inputAmount)
          && (Earliest(book, route, params, params.candidateInputs, best.value)
              || BeatsAll(book, route, params, params.candidateInputs, best.value)))
    && (forall x :: x in params.candidateInputs && EvaluateInput(book, route, params, x).Some? ==>
          best.Some? && EvaluateInput(book, route, params, x).value.netProfit <= best.value.netProfit)
  }

  /** No size inside the span beats the result. */
  ghost predicate Optimal(book: Book, route: Route, params: ScanParams, best: Option<Opportunity>)
    requires ValidBook(book)
  {
    forall x: u64 :: InSpan(params, x) && EvaluateInput(book, route, params, x).Some? ==>
      best.Some? && EvaluateInput(book, route, params, x).value.netProfit <= best.value.netProfit
  }

  /** Over the span of the grid the signed net profit is feasible up to some size and peaked at `peak`. */
  ghost predicate PeakedGrid(book: Book, route: Route, params: ScanParams, peak: u64)
    requires ValidBook(book)
  {
    params.minProfit > 0 &&
    exists lo, hi, top: u64 ::
      && lo in params.candidateInputs && hi in params.candidateInputs
      && (forall x :: x in params.candidateInputs ==> lo <= x <= hi)
      && PeakedUpTo(ObjectiveOf(book, route, params), lo, hi, top, peak)
  }

  lemma NothingToSize(book: Book, route: Route, params: ScanParams)
    requires ValidBook(book) && (route == [] || params.candidateInputs == [])
    ensures Sized(book, route, params, None) && Optimal(book, route, params, None)
  {}

  lemma SizingConcludes(book: Book, route: Route, params: ScanParams, lo: u64, hi: u64,
                        optimum: Option<(u64, i128)>, candidates: seq<u64>, best: Option<Opportunity>)
    requires ValidBook(book) && route != [] && lo in params.candidateInputs && hi in params.candidateInputs
    requires forall x :: x in params.candidateInputs ==> lo <= x <= hi
    requires if hi > lo then SearchResult(ObjectiveOf(book, route, params), lo, hi, optimum) else optimum.None?
    requires candidates == params.candidateInputs + (if optimum.Some? then [optimum.value.0] else [])
    requires BestOf(book, route, params, candidates, best)
    ensures Sized(book, route, params, best)
    ensures forall peak: u64 :: PeakedGrid(book, route, params, peak) ==> Optimal(book, route, params, best)
  {
    hide EvaluateInput, NetSigned;
    if best.Some? {
      assert lo <= best.value.inputAmount <= hi;
      assert InSpan(params, best.value.inputAmount);
      var grid := params.candidateInputs;
      var k :| 0 <= k < |candidates| && candidates[k] == best.value.inputAmount
               && BeatsAll(book, route, params, candidates[..k], best.value);
      if k < |grid| { assert candidates[..k] == grid[..k] && candidates[k] == grid[k]; } else { assert candidates[..k] == grid; }
    }
    forall peak: u64 | PeakedGrid(book, route, params, peak) ensures Optimal(book, route, params, best) {
      forall x: u64 | InSpan(params, x) && EvaluateInput(book, route, params, x).Some?
        ensures best.Some? && EvaluateInput(book, route, params, x).value.netProfit <= best.value.netProfit
      {
        assert lo <= x <= hi;
        if hi > lo {
          PeakBeats(book, route, params, lo, hi, optimum, peak, x);
          assert optimum.value.0 in candidates;
        }
      }
    }
  }

  lemma PeakBeats(book: Book, route: Route, params: ScanParams, lo: u64, hi: u64,
                  optimum: Option<(u64, i128)>, peak: u64, x: u64)
    requires ValidBook(book) && route != [] && PeakedGrid(book, route, params, peak)
    requires lo in params.candidateInputs && hi in params.candidateInputs
    requires forall y :: y in params.candidateInputs ==> lo <= y <= hi
    requires SearchResult(ObjectiveOf(book, route, params), lo, hi, optimum)
    requires lo <= x <= hi && EvaluateInput(book, route, params, x).Some?
    ensures optimum.Some? && EvaluateInput(book, route, params, optimum.value.0).Some?
    ensures EvaluateInput(book, route, params, x).value.netProfit
            <= EvaluateInput(book, route, params, optimum.value.0).value.netProfit
  {
    var f := ObjectiveOf(book, route, params);
    var top: u64 :| PeakedUpTo(f, lo, hi, top, peak);
    NetProfitExact(book, route, params, x);
    assert f(x) == NetSigned(book, route, params, x);
    assert Feasible(f, x);
    EvaluationFollowsObjective(book, route, params, optimum.value.0);
    NetProfitExact(book, route, params, optimum.value.0);
  }
}
