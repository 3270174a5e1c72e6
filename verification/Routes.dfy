/** Feasible sizes of a route: an interval on which the output is monotone, not always a prefix. */
module Routes {
  import opened Arith
  import opened Cycles
  import opened Scanner
  import opened Sizing
  import Amm
  import ClmmBounds

  /** The constant-product quote of this size stays inside `u128`. */
  predicate FitsHop(p: PoolState, aToB: bool, amountIn: u64) {
    match p.kind
    case V2(a, b, fee) => fee >= Amm.FEE_DENOM || Amm.OutFits(amountIn, if aToB then b else a, fee)
    case Clmm(_) => true
  }

  /** ... and so does every hop along a quotable route. */
  predicate FitsAlong(book: Book, route: Route, amount: u64)
    requires ValidBook(book)
  {
    route != [] && route[0].poolId in book ==>
      && FitsHop(book[route[0].poolId], route[0].aToB, amount)
      && var q := QuoteHop(book[route[0].poolId], route[0].aToB, amount);
         (q.Some? ==> FitsAlong(book, route[1..], q.value))
  }

  /** One hop: a feasible size makes every smaller positive size feasible, for no more output. */
  lemma HopMonotone(p: PoolState, aToB: bool, less: u64, more: u64)
    requires ValidPool(p) && 0 < less <= more && FitsHop(p, aToB, more)
    requires QuoteHop(p, aToB, more).Some?
    ensures QuoteHop(p, aToB, less).Some?
    ensures QuoteHop(p, aToB, less).value <= QuoteHop(p, aToB, more).value
  {
    match p.kind
    case V2(a, b, fee) =>
      if aToB { Amm.QuoteMonotone(less, more, a, b, fee); } else { Amm.QuoteMonotone(less, more, b, a, fee); }
    case Clmm(state) => ClmmBounds.QuoteMonotone(state, less, more, aToB);
  }

  lemma QuotedIsPositive(p: PoolState, aToB: bool, amountIn: u64)
    requires ValidPool(p) && QuoteHop(p, aToB, amountIn).Some?
    ensures amountIn > 0
  {}

  ghost predicate Pointwise(xs: seq<u64>, ys: seq<u64>) {
    |xs| == |ys| && forall i :: 0 <= i < |xs| ==> xs[i] <= ys[i]
  }

  /** Between two feasible sizes everything is feasible, and each hop's output is monotone. */
  lemma {:induction false} FeasibleInterval(book: Book, route: Route, low: u64, mid: u64, high: u64)
    requires ValidBook(book) && low <= mid <= high
    requires HopOutputs(book, route, low).Some? && HopOutputs(book, route, high).Some?
    requires FitsAlong(book, route, high)
    ensures HopOutputs(book, route, mid).Some?
    ensures Pointwise(HopOutputs(book, route, low).value, HopOutputs(book, route, mid).value)
    ensures Pointwise(HopOutputs(book, route, mid).value, HopOutputs(book, route, high).value)
  {
    hide QuoteHop, ValidPool, FitsHop, HopOutputs;
    if route == [] {
      OutputsEnd(book, route, low);
      OutputsEnd(book, route, mid);
      OutputsEnd(book, route, high);
    } else {
      OutputsStep(book, route, low);
      var p, d := book[route[0].poolId], route[0].aToB;
      OutputsStep(book, route, mid);
      OutputsStep(book, route, high);
      QuotedIsPositive(p, d, low);
      HopMonotone(p, d, mid, high);
      assert FitsHop(p, d, mid) by { FitsSmaller(p, d, mid, high); }
      HopMonotone(p, d, low, mid);
      FeasibleInterval(book, route[1..], QuoteHop(p, d, low).value, QuoteHop(p, d, mid).value, QuoteHop(p, d, high).value);
    }
  }

  lemma FitsSmaller(p: PoolState, aToB: bool, less: u64, more: u64)
    requires less <= more && FitsHop(p, aToB, more)
    ensures FitsHop(p, aToB, less)
  {
    match p.kind
    case V2(a, b, fee) =>
      if fee < Amm.FEE_DENOM {
        MulLe(less, more, Amm.FEE_DENOM - fee);
        MulLe(Amm.WithFee(less, fee), Amm.WithFee(more, fee), if aToB then b else a);
      }
    case Clmm(_) =>
  }

  /** The optimizer's premise on a route: over `[lo, hi]` feasibility is a prefix exactly when the
      smallest size is feasible, or none is. */
  lemma PrefixIffLowFeasible(book: Book, route: Route, params: ScanParams, lo: u64, hi: u64)
    requires ValidBook(book) && lo <= hi
    requires forall x: u64 :: lo <= x <= hi && Simulate(book, route, x).Some? ==> FitsAlong(book, route, x)
    ensures var f := ObjectiveOf(book, route, params);
            PrefixFeasible(f, lo, hi)
            <==> Feasible(f, lo) || forall x: u64 :: lo <= x <= hi ==> !Feasible(f, x)
  {
    var f := ObjectiveOf(book, route, params);
    hide HopOutputs, FitsAlong;
    if Feasible(f, lo) {
      forall x: u64, y: u64 | lo <= x <= y <= hi && Feasible(f, y) ensures Feasible(f, x) {
        FeasibleInterval(book, route, lo, x, y);
      }
    }
  }

  /** A size too small to survive the first hop is infeasible although larger ones are feasible. */
  lemma DustIsInfeasible()
    ensures exists book: Book, route: Route, dust: u64, more: u64 ::
              ValidBook(book) && 0 < dust < more
              && Simulate(book, route, dust).None? && Simulate(book, route, more).Some?
  {
    var p := PoolState("p", AmmV2, "A", "B", V2(1000, 10, 0));
    var q := PoolState("q", AmmV2, "B", "A", V2(10, 10, 0));
    var book: Book := map["p" := p, "q" := q];
    var route := [Hop("p", AmmV2, "A", "B", true), Hop("q", AmmV2, "B", "A", true)];
    assert QuoteHop(p, true, 1) == Some(0);
    assert QuoteHop(q, true, 0) == None;
    assert QuoteHop(p, true, 1000) == Some(5);
    assert QuoteHop(q, true, 5) == Some(3);
    OutputsStep(book, route, 1);
    OutputsStep(book, route[1..], 0);
    OutputsStep(book, route, 1000);
    OutputsStep(book, route[1..], 5);
    OutputsEnd(book, route[1..][1..], 3);
    assert Simulate(book, route, 1).None? && Simulate(book, route, 1000).Some?;
  }
}
