/** The on-chain constant-product pool: one swap, then whole runs of swaps. */
module AmmPool {
  import opened Arith
  import opened Chain
  import opened Amm

  /** The state a pool object carries between transactions. */
  datatype Reserves = Reserves(a: u64, b: u64, feeBps: u64)
  {
    predicate Live() { a > 0 && b > 0 && feeBps < FEE_DENOM }

    function Product(): nat { a * b }

    function In(aToB: bool): u64 { if aToB then a else b }

    function Out(aToB: bool): u64 { if aToB then b else a }

    /** `balance::join` on the paying side, `coin::take` on the other. */
    function Moved(aToB: bool, amountIn: u64, amountOut: u64): Reserves
      requires In(aToB) + amountIn < TWO_64 && amountOut <= Out(aToB)
    {
      if aToB then Reserves(a + amountIn, b - amountOut, feeBps)
      else Reserves(a - amountOut, b + amountIn, feeBps)
    }
  }

  /** `swap_a_to_b` and `swap_b_to_a` as one state transformer. */
  function Swap(p: Reserves, aToB: bool, amountIn: u64, minOut: u64): Outcome<(Reserves, u64)> {
    match MoveGetAmountOut(amountIn, p.In(aToB), p.Out(aToB), p.feeBps)
    case Aborted(code) => Aborted(code)
    case Done(amountOut) =>
      if amountOut < minOut then Aborted(Slippage)
      else if p.In(aToB) + amountIn >= TWO_64 then Aborted(Arithmetic)
      else if amountOut > p.Out(aToB) then Aborted(NotEnoughBalance)
      else Done((p.Moved(aToB, amountIn, amountOut), amountOut))
  }

  /** The shared object, updated in place. */
  class Pool {
    var reserveA: u64
    var reserveB: u64
    const feeBps: u64

    ghost function State(): Reserves
      reads this
    {
      Reserves(reserveA, reserveB, feeBps)
    }

    /** `create_pool`; its fee assert is the precondition. */
    constructor (seedA: u64, seedB: u64, fee: u64)
      requires fee < FEE_DENOM
      ensures State() == Reserves(seedA, seedB, fee)
    {
      reserveA, reserveB, feeBps := seedA, seedB, fee;
    }

    method Fund(amountA: u64, amountB: u64) returns (r: Outcome<()>)
      modifies this
      ensures r.Done? <==> old(reserveA) + amountA < TWO_64 && old(reserveB) + amountB < TWO_64
      ensures State() == if r.Done? then Reserves(old(reserveA) + amountA, old(reserveB) + amountB, feeBps)
                         else old(State())
    {
      if reserveA + amountA >= TWO_64 || reserveB + amountB >= TWO_64 {
        return Aborted(Arithmetic);
      }
      reserveA := reserveA + amountA;
      reserveB := reserveB + amountB;
      return Done(());
    }

    method SwapAToB(amountIn: u64, minOut: u64) returns (r: Outcome<u64>)
      modifies this
      ensures match Swap(old(State()), true, amountIn, minOut)
              case Done((state, amountOut)) => State() == state && r == Done(amountOut)
              case Aborted(code) => State() == old(State()) && r == Aborted(code)
    {
      var quote := MoveGetAmountOut(amountIn, reserveA, reserveB, feeBps);
      if quote.Aborted? { return quote; }
      if quote.value < minOut { return Aborted(Slippage); }
      if reserveA + amountIn >= TWO_64 { return Aborted(Arithmetic); }
      if quote.value > reserveB { return Aborted(NotEnoughBalance); }
      reserveA := reserveA + amountIn;
      reserveB := reserveB - quote.value;
      return quote;
    }

    method SwapBToA(amountIn: u64, minOut: u64) returns (r: Outcome<u64>)
      modifies this
      ensures match Swap(old(State()), false, amountIn, minOut)
              case Done((state, amountOut)) => State() == state && r == Done(amountOut)
              case Aborted(code) => State() == old(State()) && r == Aborted(code)
    {
      var quote := MoveGetAmountOut(amountIn, reserveB, reserveA, feeBps);
      if quote.Aborted? { return quote; }
      if quote.value < minOut { return Aborted(Slippage); }
      if reserveB + amountIn >= TWO_64 { return Aborted(Arithmetic); }
      if quote.value > reserveA { return Aborted(NotEnoughBalance); }
      reserveB := reserveB + amountIn;
      reserveA := reserveA - quote.value;
      return quote;
    }
  }

  /** A swap goes through exactly when the pool is live, the input positive, the product inside `u128`, the
      floor met and the paid side inside `u64`; any other call aborts. */
  lemma SwapCompletesIff(p: Reserves, aToB: bool, amountIn: u64, minOut: u64)
    ensures Swap(p, aToB, amountIn, minOut).Done? <==>
              && p.Live() && amountIn > 0
              && OutFits(amountIn, p.Out(aToB), p.feeBps)
              && minOut <= CurveOut(amountIn, p.In(aToB), p.Out(aToB), p.feeBps)
              && p.In(aToB) + amountIn < TWO_64
  {
    OutParity(amountIn, p.In(aToB), p.Out(aToB), p.feeBps);
    hide GetAmountOut, MoveGetAmountOut, OutFits;
  }

  /** What a completed swap did: it paid the curve's price, within `u64`, and at least `minOut`. */
  lemma SwapPaysCurve(p: Reserves, aToB: bool, amountIn: u64, minOut: u64)
    requires Swap(p, aToB, amountIn, minOut).Done?
    ensures var (after, amountOut) := Swap(p, aToB, amountIn, minOut).value;
            && p.Live() && amountIn > 0
            && minOut <= amountOut < p.Out(aToB)
            && amountOut == CurveOut(amountIn, p.In(aToB), p.Out(aToB), p.feeBps)
            && p.In(aToB) + amountIn < TWO_64
            && after == p.Moved(aToB, amountIn, amountOut)
  {
    OutParity(amountIn, p.In(aToB), p.Out(aToB), p.feeBps);
    hide GetAmountOut, MoveGetAmountOut, OutFits;
  }

  /** A whole swap in the pool's own fields: which check aborts with which code, in the order of the source, and
      what a completed swap leaves. The fee rate never changes. */
  lemma SwapInFields(p: Reserves, aToB: bool, amountIn: u64, minOut: u64)
    ensures var r := Swap(p, aToB, amountIn, minOut);
            var quote := if aToB then MoveGetAmountOut(amountIn, p.a, p.b, p.feeBps)
                         else MoveGetAmountOut(amountIn, p.b, p.a, p.feeBps);
            && (quote.Aborted? ==> r == Aborted(quote.code))
            && (quote.Done? && quote.value < minOut ==> r == Aborted(Slippage))
            && (quote.Done? && quote.value >= minOut ==>
                  if aToB then
                    if p.a + amountIn >= 0x1_0000_0000_0000_0000 then r == Aborted(Arithmetic)
                    else quote.value < p.b && r == Done((Reserves(p.a + amountIn, p.b - quote.value, p.feeBps), quote.value))
                  else
                    if p.b + amountIn >= 0x1_0000_0000_0000_0000 then r == Aborted(Arithmetic)
                    else quote.value < p.a && r == Done((Reserves(p.a - quote.value, p.b + amountIn, p.feeBps), quote.value)))
  {
    OutParity(amountIn, if aToB then p.a else p.b, if aToB then p.b else p.a, p.feeBps);
    hide GetAmountOut, MoveGetAmountOut, OutFits;
  }

  /** ... so the reserve product never falls. */
  lemma SwapKeepsProduct(p: Reserves, aToB: bool, amountIn: u64, minOut: u64)
    requires Swap(p, aToB, amountIn, minOut).Done?
    ensures var after := Swap(p, aToB, amountIn, minOut).value.0;
            after.Live() && after.Product() >= p.Product() && after.feeBps == p.feeBps
  {
    SwapPaysCurve(p, aToB, amountIn, minOut);
    hide Swap, CurveOut, WithFee;
    var amountOut := CurveOut(amountIn, p.In(aToB), p.Out(aToB), p.feeBps);
    WithFeeBounds(amountIn, p.feeBps);
    MovedProduct(p, aToB, amountIn, amountOut);
    hide *;
    ProductKept(p.In(aToB), p.Out(aToB), amountIn, WithFee(amountIn, p.feeBps), amountOut);
  }

  lemma MovedProduct(p: Reserves, aToB: bool, amountIn: u64, amountOut: u64)
    requires p.Live() && p.In(aToB) + amountIn < TWO_64 && amountOut < p.Out(aToB)
    ensures var after := p.Moved(aToB, amountIn, amountOut);
            && after.Live()
            && after.Product() == (p.In(aToB) + amountIn) * (p.Out(aToB) - amountOut)
            && p.Product() == p.In(aToB) * p.Out(aToB)
  {}

  lemma ProductKept(reserveIn: nat, reserveOut: nat, amountIn: nat, paid: nat, out: nat)
    requires out < reserveOut && paid <= amountIn * FEE_DENOM
    requires (reserveIn * FEE_DENOM + paid) * (reserveOut - out) >= (reserveIn * FEE_DENOM) * reserveOut
    ensures (reserveIn + amountIn) * (reserveOut - out) >= reserveIn * reserveOut
  {
    MulLe(reserveIn * FEE_DENOM + paid, (reserveIn + amountIn) * FEE_DENOM, reserveOut - out);
    assert ((reserveIn + amountIn) * FEE_DENOM) * (reserveOut - out)
        == ((reserveIn + amountIn) * (reserveOut - out)) * FEE_DENOM;
    assert (reserveIn * FEE_DENOM) * reserveOut == (reserveIn * reserveOut) * FEE_DENOM;
  }

  // --- whole runs ---

  datatype Op =
    | SwapOp(aToB: bool, amountIn: u64, minOut: u64)
    | FundOp(amountA: u64, amountB: u64)

  /** One transaction: an aborted call leaves the pool as it was. */
  function Apply(p: Reserves, op: Op): Reserves {
    match op
    case SwapOp(aToB, amountIn, minOut) =>
      (match Swap(p, aToB, amountIn, minOut)
       case Done((after, _)) => after
       case Aborted(_) => p)
    case FundOp(x, y) =>
      if p.a + x < TWO_64 && p.b + y < TWO_64 then Reserves(p.a + x, p.b + y, p.feeBps) else p
  }

  function Run(p: Reserves, ops: seq<Op>): Reserves
    decreases |ops|
  {
    if ops == [] then p else Run(Apply(p, ops[0]), ops[1..])
  }

  /** Over any run the product never falls, a live pool stays live, and its fee rate stays what it was. */
  lemma {:induction false} RunKeepsProduct(p: Reserves, ops: seq<Op>)
    ensures Run(p, ops).Product() >= p.Product() && Run(p, ops).feeBps == p.feeBps
    ensures p.Live() ==> Run(p, ops).Live()
    decreases |ops|
  {
    if ops != [] {
      ApplyKeepsProduct(p, ops[0]);
      hide Apply;
      RunKeepsProduct(Apply(p, ops[0]), ops[1..]);
    }
  }

  /** What came into the pool and what went out of it over a run, token by token. */
  datatype Flow = Flow(inA: int, inB: int, outA: int, outB: int)
  {
    function Plus(other: Flow): Flow {
      Flow(inA + other.inA, inB + other.inB, outA + other.outA, outB + other.outB)
    }
  }

  function FlowOf(p: Reserves, op: Op): Flow {
    match op
    case SwapOp(aToB, amountIn, minOut) =>
      (match Swap(p, aToB, amountIn, minOut)
       case Done((_, out)) => if aToB then Flow(amountIn, 0, 0, out) else Flow(0, amountIn, out, 0)
       case Aborted(_) => Flow(0, 0, 0, 0))
    case FundOp(x, y) =>
      if p.a + x < TWO_64 && p.b + y < TWO_64 then Flow(x, y, 0, 0) else Flow(0, 0, 0, 0)
  }

  function FlowOver(p: Reserves, ops: seq<Op>): Flow
    decreases |ops|
  {
    if ops == [] then Flow(0, 0, 0, 0) else FlowOf(p, ops[0]).Plus(FlowOver(Apply(p, ops[0]), ops[1..]))
  }

  /** Over any run the reserves are what they were, plus what completed calls brought, less what they paid. */
  lemma {:induction false} RunAccounts(p: Reserves, ops: seq<Op>)
    ensures var after, flow := Run(p, ops), FlowOver(p, ops);
            after.a == p.a + flow.inA - flow.outA && after.b == p.b + flow.inB - flow.outB
    decreases |ops|
  {
    if ops != [] {
      OneAccounts(p, ops[0]);
      hide Apply, FlowOf;
      RunAccounts(Apply(p, ops[0]), ops[1..]);
    }
  }

  lemma OneAccounts(p: Reserves, op: Op)
    ensures var after, flow := Apply(p, op), FlowOf(p, op);
            after.a == p.a + flow.inA - flow.outA && after.b == p.b + flow.inB - flow.outB
  {
    if op.SwapOp? {
      SwapInFields(p, op.aToB, op.amountIn, op.minOut);
      hide Swap, MoveGetAmountOut;
    }
  }

  lemma ApplyKeepsProduct(p: Reserves, op: Op)
    ensures Apply(p, op).Product() >= p.Product() && Apply(p, op).feeBps == p.feeBps
    ensures p.Live() ==> Apply(p, op).Live()
  {
    match op
    case SwapOp(aToB, amountIn, minOut) =>
      if Swap(p, aToB, amountIn, minOut).Done? { SwapKeepsProduct(p, aToB, amountIn, minOut); }
      hide Swap;
    case FundOp(x, y) =>
      var next := Apply(p, op);
      MulLe(p.a, next.a, p.b);
      MulLe(p.b, next.b, next.a);
  }

  /** No run of trades takes one token out of a live pool without leaving more of the other. */
  lemma RunTakesNothingForFree(p: Reserves, ops: seq<Op>)
    requires p.Live()
    ensures var after := Run(p, ops);
            && (after.a < p.a ==> after.b > p.b)
            && (after.b < p.b ==> after.a > p.a)
  {
    RunKeepsProduct(p, ops);
    hide Run;
    var after := Run(p, ops);
    if after.a < p.a && after.b <= p.b {
      MulLt(after.a, p.a, p.b);
      MulLe(after.b, p.b, after.a);
    }
    if after.b < p.b && after.a <= p.a {
      MulLt(after.b, p.b, p.a);
      MulLe(after.a, p.a, after.b);
    }
  }

  /** Splitting one swap into two never pays more, rounding included. */
  lemma SplittingNeverPays(p: Reserves, aToB: bool, first: u64, second: u64)
    requires first + second < TWO_64
    requires Swap(p, aToB, first, 0).Done?
    requires Swap(Swap(p, aToB, first, 0).value.0, aToB, second, 0).Done?
    requires Swap(p, aToB, first + second, 0).Done?
    ensures Swap(p, aToB, first, 0).value.1 + Swap(Swap(p, aToB, first, 0).value.0, aToB, second, 0).value.1
            <= Swap(p, aToB, first + second, 0).value.1
  {
    var (mid, out1) := Swap(p, aToB, first, 0).value;
    var (end, out2) := Swap(mid, aToB, second, 0).value;
    var (_, whole) := Swap(p, aToB, first + second, 0).value;
    SwapPaysCurve(p, aToB, first, 0);
    SwapPaysCurve(mid, aToB, second, 0);
    SwapPaysCurve(p, aToB, first + second, 0);
    hide *;
    CurveSplit(first, second, p.In(aToB), p.Out(aToB), p.feeBps, out1);
  }

  lemma CurveSplit(first: nat, second: nat, x: nat, y: nat, feeBps: nat, out1: nat)
    requires first > 0 && second > 0
    requires !Degenerate(first, x, y, feeBps)
    requires out1 == CurveOut(first, x, y, feeBps)
    ensures out1 + CurveOut(second, x + first, y - out1, feeBps) <= CurveOut(first + second, x, y, feeBps)
  {
    var out2 := CurveOut(second, x + first, y - out1, feeBps);
    var paid1, paid2 := WithFee(first, feeBps), WithFee(second, feeBps);
    WithFeeBounds(first, feeBps);
    assert WithFee(first + second, feeBps) == paid1 + paid2;
    hide *;
    SplitBound(x, y, first, paid1, paid2, out1, out2);
    CurveOutGreatest(first + second, x, y, feeBps, paid1 + paid2, out1 + out2);
  }

  lemma SplitBound(x: nat, y: nat, first: nat, paid1: nat, paid2: nat, out1: nat, out2: nat)
    requires 0 < x && paid1 <= first * FEE_DENOM && out1 + out2 <= y
    requires (x * FEE_DENOM + paid1) * (y - out1) >= (x * FEE_DENOM) * y
    requires ((x + first) * FEE_DENOM + paid2) * (y - out1 - out2) >= ((x + first) * FEE_DENOM) * (y - out1)
    ensures (x * FEE_DENOM + paid1 + paid2) * (y - out1 - out2) >= (x * FEE_DENOM) * y
  {
    SplitCore(x * FEE_DENOM, (x + first) * FEE_DENOM, paid1, paid2, y, y - out1, y - out1 - out2);
  }

  lemma SplitCore(d0: nat, d1: nat, paid1: nat, paid2: nat, y: nat, y1: nat, y2: nat)
    requires 0 < d0 && d0 + paid1 <= d1
    requires (d0 + paid1) * y1 >= d0 * y
    requires (d1 + paid2) * y2 >= d1 * y1
    ensures (d0 + paid1 + paid2) * y2 >= d0 * y
  {
    var e := d0 + paid1;
    // (e + paid2) * d1 >= e * (d1 + paid2), because e <= d1
    assert (e + paid2) * d1 >= e * (d1 + paid2) by {
      MulLe(e, d1, paid2);
      assert (e + paid2) * d1 == e * d1 + paid2 * d1;
      assert e * (d1 + paid2) == e * d1 + e * paid2;
    }
    SplitChain(d0 * y, e, e + paid2, d1, d1 + paid2, y1, y2);
  }

  lemma SplitChain(floor: nat, e: nat, f: nat, d: nat, g: nat, y1: nat, y2: nat)
    requires 0 < d && e * y1 >= floor && g * y2 >= d * y1 && f * d >= e * g
    ensures f * y2 >= floor
  {
    MulLe(e * g, f * d, y2);
    MulLe(d * y1, g * y2, e);
    MulLe(floor, e * y1, d);
    assert (f * d) * y2 == (f * y2) * d;
    assert (e * g) * y2 == (g * y2) * e;
    assert (d * y1) * e == (e * y1) * d;
    CancelLe(floor, f * y2, d);
  }
}
