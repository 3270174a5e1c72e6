/** Running a plan: the swaps of a route on the live pools, and the two gates at its end. */
module Execution {
  import opened Arith
  import opened Chain
  import opened AmmPool
  import opened Flash
  import opened Executor
  import opened Sums
  import opened Ptb
  import opened PtbSafety
  import opened Cycles
  import opened Scanner
  import opened Routes
  import opened Plans
  import Amm

  /** Running on from an outcome. */
  function Then(r: Outcome<Running>, sender: Address, cmds: seq<Command>): Outcome<Running> {
    match r
    case Aborted(code) => Aborted(code)
    case Done(mid) => Exec(mid, sender, cmds)
  }

  lemma {:induction false} ExecConcat(s: Running, sender: Address, xs: seq<Command>, ys: seq<Command>)
    ensures Exec(s, sender, xs + ys) == Then(Exec(s, sender, xs), sender, ys)
    decreases |xs|
  {
    hide Step;
    if xs == [] {
      assert xs + ys == ys;
    } else {
      assert (xs + ys)[1..] == xs[1..] + ys;
      if Step(s, sender, xs[0]).Done? { ExecConcat(Step(s, sender, xs[0]).value, sender, xs[1..], ys); }
    }
  }

  lemma ExecOne(s: Running, sender: Address, cmd: Command, rest: seq<Command>)
    ensures Exec(s, sender, [cmd] + rest) == Then(Step(s, sender, cmd), sender, rest)
  {
    hide Step;
    assert ([cmd] + rest)[1..] == rest;
  }

  /** Slot `c` is the last one and holds the only coin besides the sender's inputs. */
  predicate OneCoin(s: Running, c: nat) {
    && |s.coins| == c + 1 && s.coins[c].Some? && (forall i :: i in s.owned ==> i < c)
    && forall i :: 0 <= i < c && i !in s.owned ==> s.coins[i].None?
  }

  predicate OnlyCoin(s: Running, c: nat, coin: Coin) {
    OneCoin(s, c) && s.coins[c].value == coin
  }

  /** Everything a swap leaves alone: vaults, receipts, deliveries and the sender's inputs. */
  predicate SameDebts(s: Running, t: Running) {
    && s.ledger.vaults == t.ledger.vaults && s.loans == t.loans && s.sessions == t.sessions
    && s.delivered == t.delivered && s.owned == t.owned && |s.coins| <= |t.coins|
    && forall i :: 0 <= i < |s.coins| && i in s.owned ==> t.coins[i] == s.coins[i]
  }

  ghost predicate SupplyFits(s: Running) {
    forall t: string :: Held(s, t) < TWO_64
  }

  /** Whatever the pools do, swaps pass one coin along and touch no debt. */
  lemma {:induction false} SwapsPassOneCoin(s: Running, sender: Address, route: Route, hops: seq<ResolvedHop>, c: nat)
    requires |hops| == |route| && OneCoin(s, c)
    requires Exec(s, sender, SwapCommands(route, hops, c)).Done?
    ensures var end := Exec(s, sender, SwapCommands(route, hops, c)).value;
            && SameDebts(s, end)
            && OneCoin(end, c + |route|)
    decreases |route|
  {
    hide Exec, Step;
    if route != [] {
      var cmd := SwapExactIn(hops[0].pool, route[0].aToB, c, hops[0].minOut);
      ExecOne(s, sender, cmd, SwapCommands(route[1..], hops[1..], c + 1));
      SwapPassesCoin(s, sender, cmd);
      SwapsPassOneCoin(Step(s, sender, cmd).value, sender, route[1..], hops[1..], c + 1);
    } else {
      ExecNothing(s, sender);
    }
  }

  /** Over any ledger, whatever happened to the pools since they were quoted: if the swaps of a route go through,
      the last one has met its floor. */
  lemma {:induction false} SwapsMeetFloor(s: Running, sender: Address, route: Route, hops: seq<ResolvedHop>, c: nat)
    requires |hops| == |route| && route != [] && OneCoin(s, c)
    requires Exec(s, sender, SwapCommands(route, hops, c)).Done?
    ensures var end := Exec(s, sender, SwapCommands(route, hops, c)).value;
            |end.coins| == c + |route| + 1 && end.coins[c + |route|].Some?
            && end.coins[c + |route|].value.value >= hops[|route| - 1].minOut
    decreases |route|
  {
    hide Exec, Step, SwapCommands;
    var cmd := SwapExactIn(hops[0].pool, route[0].aToB, c, hops[0].minOut);
    FirstSwapCommand(route, hops, c);
    ExecOne(s, sender, cmd, SwapCommands(route[1..], hops[1..], c + 1));
    SwapPassesCoin(s, sender, cmd);
    SwapStepOutcome(s, sender, hops[0].pool, route[0].aToB, c, hops[0].minOut);
    var next := Step(s, sender, cmd).value;
    if |route| > 1 {
      SwapsMeetFloor(next, sender, route[1..], hops[1..], c + 1);
    } else {
      NoCommands(route[1..], hops[1..], c + 1);
      ExecNothing(next, sender);
    }
  }

  lemma NoCommands(route: Route, hops: seq<ResolvedHop>, c: nat)
    requires route == [] && hops == []
    ensures SwapCommands(route, hops, c) == []
  {}

  lemma ExecNothing(s: Running, sender: Address)
    ensures Exec(s, sender, []) == Done(s)
  {}

  lemma SwapPassesCoin(s: Running, sender: Address, cmd: Command)
    requires cmd.SwapExactIn? && OneCoin(s, cmd.coin) && Step(s, sender, cmd).Done?
    ensures var next := Step(s, sender, cmd).value;
            SameDebts(s, next) && OneCoin(next, cmd.coin + 1)
  {
    hide Swap;
  }

  // --- snapshot pools ---

  predicate AllV2(pools: seq<PoolState>) {
    forall i :: 0 <= i < |pools| ==> pools[i].kind.V2?
  }

  function OnLedger(p: PoolState): OnchainPool
    requires p.kind.V2?
  {
    OnchainPool(p.tokenA, p.tokenB, Reserves(p.kind.reserveA, p.kind.reserveB, p.kind.feeBps))
  }

  /** The pool objects are the snapshot's. */
  predicate Snapshot(pools: seq<PoolState>, onchain: seq<OnchainPool>) {
    |onchain| == |pools| && AllV2(pools) && forall i :: 0 <= i < |pools| ==> onchain[i] == OnLedger(pools[i])
  }

  /** On an untouched pool a swap pays what the snapshot quoted, as long as its product fits `u128`, the
      floor is met and the pool can take the coin. */
  lemma SwapPaysQuote(p: PoolState, aToB: bool, amountIn: u64, minOut: u64)
    requires p.kind.V2? && ValidPool(p) && QuoteHop(p, aToB, amountIn).Some? && FitsHop(p, aToB, amountIn)
    requires minOut <= QuoteHop(p, aToB, amountIn).value
    requires OnLedger(p).reserves.In(aToB) + amountIn < TWO_64
    ensures var r := OnLedger(p).reserves;
            var out := QuoteHop(p, aToB, amountIn).value;
            out <= r.Out(aToB) && Swap(r, aToB, amountIn, minOut) == Done((r.Moved(aToB, amountIn, out), out))
  {
    var r := OnLedger(p).reserves;
    Amm.OutParity(amountIn, r.In(aToB), r.Out(aToB), r.feeBps);
    hide Amm.GetAmountOut, Amm.MoveGetAmountOut, Amm.OutFits;
  }

  /** A coin and a pool side of one token are both part of the supply. */
  lemma PoolAndCoinFit(s: Running, pool: nat, aToB: bool, c: nat)
    requires SupplyFits(s) && pool < |s.ledger.pools| && s.HasCoin(c)
    requires s.coins[c].value.token == s.ledger.pools[pool].TokenIn(aToB)
    ensures s.ledger.pools[pool].reserves.In(aToB) + s.coins[c].value.value < TWO_64
  {
    var t := s.coins[c].value.token;
    SumAtLeast(s.ledger.pools, pool, PoolWorth(t));
    SumAtLeast(s.coins, c, CoinWorth(t));
    assert Held(s, t) < TWO_64;
  }

  /** Every hop of the route is a hop through its resolved pool, every pool is used once, and tokens chain. */
  ghost predicate Resolved(pools: seq<PoolState>, route: Route, hops: seq<ResolvedHop>) {
    && |hops| == |route|
    && (forall i :: 0 <= i < |route| ==>
          hops[i].pool < |pools| && HopThrough(pools[hops[i].pool], route[i]))
    && (forall i, j :: 0 <= i < j < |route| ==> hops[i].pool != hops[j].pool)
    && (forall i :: 0 < i < |route| ==> route[i].tokenIn == route[i - 1].tokenOut)
  }

  /** The pools still ahead are as in the snapshot. */
  predicate Untouched(pools: seq<PoolState>, onchain: seq<OnchainPool>, hops: seq<ResolvedHop>) {
    && |onchain| == |pools| && AllV2(pools)
    && forall i :: 0 <= i < |hops| ==> hops[i].pool < |pools| && onchain[hops[i].pool] == OnLedger(pools[hops[i].pool])
  }

  ghost predicate FloorsMet(hops: seq<ResolvedHop>, outs: seq<u64>) {
    |hops| == |outs| && forall i :: 0 <= i < |hops| ==> hops[i].minOut <= outs[i]
  }

  /** The book prices each hop by its resolved pool. */
  ghost predicate Priced(book: Book, pools: seq<PoolState>, route: Route, hops: seq<ResolvedHop>) {
    |hops| == |route| && forall i :: 0 <= i < |route| ==>
      hops[i].pool < |pools| && route[i].poolId in book && book[route[i].poolId] == pools[hops[i].pool]
  }

  /** Each pool of the route has taken the previous amount and paid the simulated output. */
  ghost predicate PoolsMoved(pools: seq<PoolState>, onchain: seq<OnchainPool>, route: Route, hops: seq<ResolvedHop>,
                             amount: u64, outs: seq<u64>)
    requires AllV2(pools) && |hops| == |route| == |outs|
    decreases |route|
  {
    route != [] ==>
      && hops[0].pool < |pools| == |onchain|
      && PoolMoved(OnLedger(pools[hops[0].pool]), onchain[hops[0].pool], route[0].aToB, amount, outs[0])
      && PoolsMoved(pools, onchain, route[1..], hops[1..], outs[0], outs[1..])
  }

  predicate PoolMoved(before: OnchainPool, after: OnchainPool, aToB: bool, amountIn: u64, amountOut: u64) {
    && before.reserves.In(aToB) + amountIn < TWO_64 && amountOut <= before.reserves.Out(aToB)
    && after == before.(reserves := before.reserves.Moved(aToB, amountIn, amountOut))
  }

  /** Pools off the route are as before. */
  ghost predicate OthersKept(before: seq<OnchainPool>, after: seq<OnchainPool>, hops: seq<ResolvedHop>) {
    |after| == |before| && forall k :: 0 <= k < |before| && (forall i :: 0 <= i < |hops| ==> hops[i].pool != k) ==>
      after[k] == before[k]
  }

  /** Ready to run a route: one coin of its first token, its pools untouched, its outputs simulated. */
  ghost predicate Ready(s: Running, book: Book, pools: seq<PoolState>, route: Route, hops: seq<ResolvedHop>, c: nat,
                        token: string, amount: u64, outs: seq<u64>)
  {
    && ValidBook(book) && Resolved(pools, route, hops) && Priced(book, pools, route, hops)
    && Untouched(pools, s.ledger.pools, hops) && SupplyFits(s)
    && OnlyCoin(s, c, Coin(token, amount)) && (route != [] ==> route[0].tokenIn == token)
    && HopOutputs(book, route, amount) == Some(outs) && FloorsMet(hops, outs)
  }

  function LastToken(route: Route, token: string): string {
    if route == [] then token else route[|route| - 1].tokenOut
  }

  function LastAmount(outs: seq<u64>, amount: u64): u64 {
    if outs == [] then amount else outs[|outs| - 1]
  }

  /** The route has paid what was simulated: the last output is the only coin, every pool of the route moved
      by its own hop, and nothing else changed. */
  ghost predicate Paid(s: Running, end: Running, pools: seq<PoolState>, route: Route, hops: seq<ResolvedHop>, c: nat,
                       token: string, amount: u64, outs: seq<u64>)
    requires AllV2(pools) && |hops| == |route| == |outs|
  {
    && SameDebts(s, end) && SupplyFits(end)
    && OnlyCoin(end, c + |route|, Coin(LastToken(route, token), LastAmount(outs, amount)))
    && PoolsMoved(pools, end.ledger.pools, route, hops, amount, outs)
    && OthersKept(s.ledger.pools, end.ledger.pools, hops)
  }

  /** The swaps of a route on live pools pay, hop by hop, exactly what the simulation promised. */
  lemma {:induction false} SwapsPayQuotes(s: Running, sender: Address, book: Book, pools: seq<PoolState>, route: Route,
                                          hops: seq<ResolvedHop>, c: nat, token: string, amount: u64, outs: seq<u64>)
    requires Ready(s, book, pools, route, hops, c, token, amount, outs) && FitsAlong(book, route, amount)
    ensures AllV2(pools) && |hops| == |route| == |outs|
    ensures Exec(s, sender, SwapCommands(route, hops, c)).Done?
    ensures Paid(s, Exec(s, sender, SwapCommands(route, hops, c)).value, pools, route, hops, c, token, amount, outs)
    decreases |route|
  {
    ReadySizes(s, book, pools, route, hops, c, token, amount, outs);
    hide *;
    if route == [] {
      NothingToPay(s, sender, pools, route, hops, c, token, amount, outs);
    } else {
      var next := FirstHopRuns(s, sender, book, pools, route, hops, c, token, amount, outs);
      SwapsPayQuotes(next, sender, book, pools, route[1..], hops[1..], c + 1, route[0].tokenOut, outs[0], outs[1..]);
      var end := Exec(next, sender, SwapCommands(route[1..], hops[1..], c + 1)).value;
      PaidInTwo(s, next, end, pools, route, hops, c, token, amount, outs);
    }
  }

  lemma ReadySizes(s: Running, book: Book, pools: seq<PoolState>, route: Route, hops: seq<ResolvedHop>, c: nat,
                   token: string, amount: u64, outs: seq<u64>)
    requires Ready(s, book, pools, route, hops, c, token, amount, outs)
    ensures AllV2(pools) && |hops| == |route| == |outs|
    ensures SupplyFits(s) && OnlyCoin(s, c, Coin(token, amount))
  {
    hide HopOutputs, Untouched, Resolved, Priced, SupplyFits;
    assert Untouched(pools, s.ledger.pools, hops) ==> AllV2(pools) by { UntouchedV2(pools, s.ledger.pools, hops); }
    assert Priced(book, pools, route, hops) ==> |hops| == |route| by { PricedSize(book, pools, route, hops); }
  }

  lemma UntouchedV2(pools: seq<PoolState>, onchain: seq<OnchainPool>, hops: seq<ResolvedHop>)
    ensures Untouched(pools, onchain, hops) ==> AllV2(pools)
  {}

  lemma PricedSize(book: Book, pools: seq<PoolState>, route: Route, hops: seq<ResolvedHop>)
    ensures Priced(book, pools, route, hops) ==> |hops| == |route|
  {}

  lemma NothingToPay(s: Running, sender: Address, pools: seq<PoolState>, route: Route, hops: seq<ResolvedHop>, c: nat,
                     token: string, amount: u64, outs: seq<u64>)
    requires AllV2(pools) && route == [] && |hops| == |outs| == 0
    requires SupplyFits(s) && OnlyCoin(s, c, Coin(token, amount))
    ensures Exec(s, sender, SwapCommands(route, hops, c)) == Done(s)
    ensures Paid(s, s, pools, route, hops, c, token, amount, outs)
  {
    hide SupplyFits;
  }

  /** One hop of a ready route: it pays its quote, and the rest of the route is ready. */
  lemma FirstHopRuns(s: Running, sender: Address, book: Book, pools: seq<PoolState>, route: Route, hops: seq<ResolvedHop>,
                     c: nat, token: string, amount: u64, outs: seq<u64>) returns (next: Running)
    requires route != [] && Ready(s, book, pools, route, hops, c, token, amount, outs)
    requires hops[0].pool < |pools| && FitsHop(pools[hops[0].pool], route[0].aToB, amount)
    ensures |outs| == |route| && AllV2(pools)
    ensures Exec(s, sender, SwapCommands(route, hops, c)) == Exec(next, sender, SwapCommands(route[1..], hops[1..], c + 1))
    ensures Ready(next, book, pools, route[1..], hops[1..], c + 1, route[0].tokenOut, outs[0], outs[1..])
    ensures FitsAlong(book, route, amount) <==> FitsAlong(book, route[1..], outs[0])
    ensures HopPaid(s, next, pools, route, hops, amount, outs)
  {
    hide Exec, Step, QuoteHop, ValidPool, FitsHop, HopThrough, EdgeOf, SupplyFits, PoolMoved, OnLedger;
    var p, d := pools[hops[0].pool], route[0].aToB;
    var cmd := SwapExactIn(hops[0].pool, d, c, hops[0].minOut);
    OutputsStep(book, route, amount);
    ExecOne(s, sender, cmd, SwapCommands(route[1..], hops[1..], c + 1));
    FirstEdge(pools, route, hops);
    HopRuns(s, sender, p, hops[0], d, c, amount);
    next := Step(s, sender, cmd).value;
    TailReady(book, pools, route, hops, outs, s.ledger.pools, next.ledger.pools);
  }

  /** The first pool of the route moved by the first hop, the rest of the ledger and all debts stayed. */
  ghost predicate HopPaid(s: Running, next: Running, pools: seq<PoolState>, route: Route, hops: seq<ResolvedHop>,
                          amount: u64, outs: seq<u64>)
    requires AllV2(pools)
  {
    && route != [] && |hops| == |route| == |outs| && SameDebts(s, next)
    && hops[0].pool < |pools| == |s.ledger.pools| == |next.ledger.pools|
    && (forall i, j :: 0 <= i < j < |hops| ==> hops[i].pool != hops[j].pool)
    && PoolMoved(OnLedger(pools[hops[0].pool]), next.ledger.pools[hops[0].pool], route[0].aToB, amount, outs[0])
    && forall i :: 0 <= i < |pools| && i != hops[0].pool ==> next.ledger.pools[i] == s.ledger.pools[i]
  }

  lemma PaidInTwo(s: Running, next: Running, end: Running, pools: seq<PoolState>, route: Route, hops: seq<ResolvedHop>,
                  c: nat, token: string, amount: u64, outs: seq<u64>)
    requires AllV2(pools) && HopPaid(s, next, pools, route, hops, amount, outs)
    requires Paid(next, end, pools, route[1..], hops[1..], c + 1, route[0].tokenOut, outs[0], outs[1..])
    ensures Paid(s, end, pools, route, hops, c, token, amount, outs)
  {
    hide PoolMoved, OnLedger, SupplyFits;
    assert forall i :: 0 <= i < |hops[1..]| ==> hops[1..][i] == hops[i + 1];
    assert end.ledger.pools[hops[0].pool] == next.ledger.pools[hops[0].pool];
    forall k | 0 <= k < |pools| && (forall i :: 0 <= i < |hops| ==> hops[i].pool != k)
      ensures end.ledger.pools[k] == s.ledger.pools[k]
    {
      assert hops[0].pool != k;
    }
  }

  /** If some product leaves `u128` the chain aborts instead. */
  lemma {:induction false} SwapsAbortOnOverflow(s: Running, sender: Address, book: Book, pools: seq<PoolState>, route: Route,
                                                hops: seq<ResolvedHop>, c: nat, token: string, amount: u64, outs: seq<u64>)
    requires Ready(s, book, pools, route, hops, c, token, amount, outs) && !FitsAlong(book, route, amount)
    ensures |hops| == |route| && Exec(s, sender, SwapCommands(route, hops, c)).Aborted?
    decreases |route|
  {
    ReadySizes(s, book, pools, route, hops, c, token, amount, outs);
    FirstResolves(s, book, pools, route, hops, c, token, amount, outs);
    hide *;
    if FitsHop(pools[hops[0].pool], route[0].aToB, amount) {
      var next := FirstHopRuns(s, sender, book, pools, route, hops, c, token, amount, outs);
      SwapsAbortOnOverflow(next, sender, book, pools, route[1..], hops[1..], c + 1, route[0].tokenOut, outs[0], outs[1..]);
    } else {
      var cmd := SwapExactIn(hops[0].pool, route[0].aToB, c, hops[0].minOut);
      OverflowAborts(s, sender, pools[hops[0].pool], cmd, amount);
      ExecOne(s, sender, cmd, SwapCommands(route[1..], hops[1..], c + 1));
      AbortedFirst(s, sender, cmd, route, hops, c);
    }
  }

  lemma FirstResolves(s: Running, book: Book, pools: seq<PoolState>, route: Route, hops: seq<ResolvedHop>, c: nat,
                      token: string, amount: u64, outs: seq<u64>)
    requires Ready(s, book, pools, route, hops, c, token, amount, outs) && !FitsAlong(book, route, amount)
    ensures route != [] && |hops| == |route| && hops[0].pool < |pools| == |s.ledger.pools|
    ensures pools[hops[0].pool].kind.V2? && ValidPool(pools[hops[0].pool])
    ensures s.ledger.pools[hops[0].pool] == OnLedger(pools[hops[0].pool])
    ensures OneCoin(s, c) && s.coins[c].value.value == amount
  {
    hide HopOutputs, SupplyFits, QuoteHop, ValidPool, OnLedger, FitsHop;
    assert route[0].poolId in book && book[route[0].poolId] == pools[hops[0].pool];
  }

  lemma AbortedFirst(s: Running, sender: Address, cmd: Command, route: Route, hops: seq<ResolvedHop>, c: nat)
    requires route != [] && |hops| == |route| && Step(s, sender, cmd).Aborted?
    requires cmd == SwapExactIn(hops[0].pool, route[0].aToB, c, hops[0].minOut)
    ensures Exec(s, sender, SwapCommands(route, hops, c)).Aborted?
  {
    hide Step;
  }

  lemma OverflowAborts(s: Running, sender: Address, p: PoolState, cmd: Command, amount: u64)
    requires cmd.SwapExactIn? && p.kind.V2? && ValidPool(p) && !FitsHop(p, cmd.aToB, amount)
    requires OneCoin(s, cmd.coin) && s.coins[cmd.coin].value.value == amount
    requires cmd.pool < |s.ledger.pools| && s.ledger.pools[cmd.pool] == OnLedger(p)
    ensures Step(s, sender, cmd).Aborted?
  {
    var r := OnLedger(p).reserves;
    Amm.OutParity(amount, r.In(cmd.aToB), r.Out(cmd.aToB), r.feeBps);
    hide Amm.GetAmountOut, Amm.MoveGetAmountOut, Amm.OutFits;
  }

  lemma FirstEdge(pools: seq<PoolState>, route: Route, hops: seq<ResolvedHop>)
    requires Resolved(pools, route, hops) && route != []
    ensures var e := EdgeOf(pools[hops[0].pool], route[0].aToB);
            e.from == route[0].tokenIn && e.to == route[0].tokenOut
  {}

  lemma TailReady(book: Book, pools: seq<PoolState>, route: Route, hops: seq<ResolvedHop>, outs: seq<u64>,
                  before: seq<OnchainPool>, after: seq<OnchainPool>)
    requires route != [] && Resolved(pools, route, hops) && Priced(book, pools, route, hops) && FloorsMet(hops, outs)
    requires Untouched(pools, before, hops)
    requires |after| == |before| && forall i :: 0 <= i < |before| && i != hops[0].pool ==> after[i] == before[i]
    ensures Resolved(pools, route[1..], hops[1..]) && Priced(book, pools, route[1..], hops[1..])
    ensures FloorsMet(hops[1..], outs[1..]) && Untouched(pools, after, hops[1..])
    ensures |route| > 1 ==> route[1..][0].tokenIn == route[0].tokenOut
  {
    hide HopThrough, EdgeOf, OnLedger;
  }

  lemma HopRuns(s: Running, sender: Address, p: PoolState, hop: ResolvedHop, aToB: bool, c: nat, amount: u64)
    requires p.kind.V2? && ValidPool(p) && hop.pool < |s.ledger.pools| && s.ledger.pools[hop.pool] == OnLedger(p)
    requires OnlyCoin(s, c, Coin(EdgeOf(p, aToB).from, amount)) && SupplyFits(s)
    requires QuoteHop(p, aToB, amount).Some? && FitsHop(p, aToB, amount) && hop.minOut <= QuoteHop(p, aToB, amount).value
    ensures var r := Step(s, sender, SwapExactIn(hop.pool, aToB, c, hop.minOut));
            && r.Done? && SameDebts(s, r.value) && SupplyFits(r.value)
            && OnlyCoin(r.value, c + 1, Coin(EdgeOf(p, aToB).to, QuoteHop(p, aToB, amount).value))
            && |r.value.ledger.pools| == |s.ledger.pools|
            && PoolMoved(OnLedger(p), r.value.ledger.pools[hop.pool], aToB, amount, QuoteHop(p, aToB, amount).value)
            && forall i :: 0 <= i < |s.ledger.pools| && i != hop.pool ==> r.value.ledger.pools[i] == s.ledger.pools[i]
  {
    PoolAndCoinFit(s, hop.pool, aToB, c);
    SwapPaysQuote(p, aToB, amount, hop.minOut);
    hide Swap, QuoteHop, FitsHop;
    var cmd := SwapExactIn(hop.pool, aToB, c, hop.minOut);
    forall t: string ensures Held(Step(s, sender, cmd).value, t) < TWO_64 {
      StepConserves(s, sender, cmd, t);
    }
  }

  // --- the gates ---

  /** A flash plan before its last three commands: one coin, one open loan, one open session on it. */
  predicate AtGates(s: Running, c: nat, lender: nat, fee: u64, minProfit: u64, sender: Address) {
    && OneCoin(s, c) && s.owned == {} && lender < |s.ledger.vaults| && s.delivered == []
    && |s.loans| == 1 && !s.loans[0].repaid && s.loans[0].receipt.lender == lender && s.loans[0].receipt.fee == fee
    && |s.sessions| == 1 && s.sessions[0].closing.None?
    && s.sessions[0].receipt == ArbReceipt(sender, s.loans[0].receipt.amount, minProfit)
  }

  /** Vault number `lender` gains `gain` units and nothing else about any vault changes. */
  predicate OneVaultGains(before: seq<Vault>, after: seq<Vault>, lender: nat, gain: int) {
    && |after| == |before|
    && forall i :: 0 <= i < |before| ==>
         && after[i].token == before[i].token && after[i].feeBps == before[i].feeBps
         && after[i].reserve == before[i].reserve + (if i == lender then gain else 0)
  }

  function GateCommands(c: nat, lender: nat, sender: Address): seq<Command> {
    [SettleAndReturn(0, c), RepayLoan(lender, 0, c), TransferCoin(c + 1, sender)]
  }

  /** From there the plan completes exactly when the coin is of the lent token and covers both the profit
      target and the debt; what remains goes to the sender. */
  lemma GatesDecide(s: Running, sender: Address, c: nat, lender: nat, fee: u64, minProfit: u64)
    requires AtGates(s, c, lender, fee, minProfit, sender) && SupplyFits(s)
    requires s.coins[c].value.token == s.ledger.vaults[lender].token
    ensures var amount, final := s.loans[0].receipt.amount, s.coins[c].value.value;
            var r := Exec(s, sender, GateCommands(c, lender, sender));
            && (r.Done? <==> final >= amount + minProfit && final >= amount + fee)
            && (r.Done? ==>
                  && Discharged(r.value) && Kept(r.value.coins, sender) == []
                  && r.value.delivered == [Holding(sender, Coin(s.coins[c].value.token, final - amount - fee))]
                  && r.value.ledger.pools == s.ledger.pools
                  && OneVaultGains(s.ledger.vaults, r.value.ledger.vaults, lender, amount + fee))
  {
    var settle, repay, transfer := SettleAndReturn(0, c), RepayLoan(lender, 0, c), TransferCoin(c + 1, sender);
    SettleStep(s, sender, c, lender, fee, minProfit);
    GateParts(s, sender, c, lender);
    if Step(s, sender, settle).Done? {
      var s1 := Step(s, sender, settle).value;
      RepayStep(s, s1, sender, c, lender);
      if Step(s1, sender, repay).Done? {
        TransferStep(Step(s1, sender, repay).value, sender, c + 1);
      }
    }
    hide Exec, Step, AtGates, SupplyFits, OneCoin, Discharged, Kept, GateCommands;
  }

  lemma GateParts(s: Running, sender: Address, c: nat, lender: nat)
    ensures Exec(s, sender, GateCommands(c, lender, sender))
            == (match Step(s, sender, SettleAndReturn(0, c))
                case Aborted(code) => Aborted(code)
                case Done(s1) =>
                  match Step(s1, sender, RepayLoan(lender, 0, c))
                  case Aborted(code) => Aborted(code)
                  case Done(s2) => Step(s2, sender, TransferCoin(c + 1, sender)))
  {
    var settle, repay, transfer := SettleAndReturn(0, c), RepayLoan(lender, 0, c), TransferCoin(c + 1, sender);
    hide Step, Exec;
    ExecOne(s, sender, settle, [repay, transfer]);
    assert GateCommands(c, lender, sender) == [settle] + [repay, transfer];
    if Step(s, sender, settle).Done? {
      var s1 := Step(s, sender, settle).value;
      ExecOne(s1, sender, repay, [transfer]);
      assert [repay, transfer] == [repay] + [transfer];
      if Step(s1, sender, repay).Done? {
        var s2 := Step(s1, sender, repay).value;
        ExecOne(s2, sender, transfer, []);
        assert [transfer] == [transfer] + [];
        if Step(s2, sender, transfer).Done? { ExecNothing(Step(s2, sender, transfer).value, sender); }
      }
    }
  }

  /** The first gate closes the session and leaves everything else. */
  lemma SettleStep(s: Running, sender: Address, c: nat, lender: nat, fee: u64, minProfit: u64)
    requires AtGates(s, c, lender, fee, minProfit, sender)
    ensures var final, r := s.coins[c].value.value, Step(s, sender, SettleAndReturn(0, c));
            && (r.Done? <==> final >= s.loans[0].receipt.amount + minProfit)
            && (r.Done? ==> r.value == Settled(s, s.coins[c].value))
  {
    GateIsExact(s.loans[0].receipt.amount, minProfit, s.coins[c].value.value);
    hide AssertProfit;
  }

  function Settled(s: Running, final: Coin): Running
    requires s.sessions != []
  {
    s.(sessions := s.sessions[0 := s.sessions[0].(closing := Some(final))], owned := {})
  }

  /** The second one repays the loan and leaves the change as the only coin. */
  lemma RepayStep(s: Running, s1: Running, sender: Address, c: nat, lender: nat)
    requires SupplyFits(s) && lender < |s.ledger.vaults| && OneCoin(s, c) && |s.loans| == 1 && |s.sessions| == 1
    requires !s.loans[0].repaid && s.loans[0].receipt.lender == lender && s.delivered == []
    requires s.coins[c].value.token == s.ledger.vaults[lender].token
    requires s1 == Settled(s, s.coins[c].value) && s.owned == {}
    ensures var due, coin := s.loans[0].receipt.amount + s.loans[0].receipt.fee, s.coins[c].value;
            var r := Step(s1, sender, RepayLoan(lender, 0, c));
            && (r.Done? <==> coin.value >= due)
            && (r.Done? ==>
                  && OneCoin(r.value, c + 1) && r.value.coins[c + 1].value == Coin(coin.token, coin.value - due)
                  && r.value.owned == {} && r.value.delivered == [] && r.value.ledger.pools == s.ledger.pools
                  && |r.value.loans| == 1 && r.value.loans[0].repaid
                  && |r.value.sessions| == 1 && r.value.sessions[0].closing.Some?
                  && OneVaultGains(s.ledger.vaults, r.value.ledger.vaults, lender, due))
  {
    VaultAndCoinFit(s, lender, c);
    hide SupplyFits;
  }

  /** The transfer empties the last slot, and nothing is left over. */
  lemma TransferStep(s: Running, sender: Address, c: nat)
    requires OneCoin(s, c) && s.owned == {} && s.delivered == []
    requires |s.loans| == 1 && s.loans[0].repaid && |s.sessions| == 1 && s.sessions[0].closing.Some?
    ensures var r := Step(s, sender, TransferCoin(c, sender));
            && r.Done? && Discharged(r.value) && Kept(r.value.coins, sender) == []
            && r.value.delivered == [Holding(sender, s.coins[c].value)] && r.value.ledger == s.ledger
  {
    NothingKept(Step(s, sender, TransferCoin(c, sender)).value.coins, sender);
    hide Kept;
  }

  /** A vault and a coin of its token are both part of the supply. */
  lemma VaultAndCoinFit(s: Running, vault: nat, c: nat)
    requires SupplyFits(s) && vault < |s.ledger.vaults| && s.HasCoin(c)
    requires s.coins[c].value.token == s.ledger.vaults[vault].token
    ensures s.ledger.vaults[vault].reserve + s.coins[c].value.value < TWO_64
  {
    var t := s.coins[c].value.token;
    SumAtLeast(s.ledger.vaults, vault, VaultWorth(t));
    SumAtLeast(s.coins, c, CoinWorth(t));
    assert Held(s, t) < TWO_64;
  }

  // --- the whole flash plan ---

  ghost predicate LedgerFits(ledger: Ledger) {
    forall t: string :: LedgerHeld(ledger, t) < TWO_64
  }

  function FlashOpening(ledger: Ledger, sender: Address, lender: nat, amount: u64, minProfit: u64): Outcome<Running> {
    Exec(Opening(ledger, []), sender, [BorrowLoan(lender, amount), BeginArb(0, minProfit)])
  }

  /** Borrowing and opening the session. */
  lemma FlashOpens(ledger: Ledger, sender: Address, lender: nat, amount: u64, minProfit: u64)
    requires lender < |ledger.vaults| && LedgerFits(ledger)
    ensures var v := ledger.vaults[lender];
            var r := FlashOpening(ledger, sender, lender, amount, minProfit);
            && (r.Done? <==> ExactFee(amount, v.feeBps) < TWO_64 && amount <= v.reserve)
            && (r.Done? ==>
                  && AtGates(r.value, 0, lender, ExactFee(amount, v.feeBps), minProfit, sender)
                  && r.value.loans[0].receipt.amount == amount
                  && OnlyCoin(r.value, 0, Coin(v.token, amount))
                  && r.value.ledger.pools == ledger.pools
                  && OneVaultGains(ledger.vaults, r.value.ledger.vaults, lender, 0 - amount)
                  && SupplyFits(r.value))
  {
    var s := Opening(ledger, []);
    var borrow, begin := BorrowLoan(lender, amount), BeginArb(0, minProfit);
    FeeParity(amount, ledger.vaults[lender].feeBps);
    hide FeeAmount, ExactFee, Held;
    ExecOne(s, sender, borrow, [begin]);
    assert [borrow] + [begin] == [borrow, begin];
    if Step(s, sender, borrow).Done? {
      var s1 := Step(s, sender, borrow).value;
      ExecOne(s1, sender, begin, []);
      assert [begin] + [] == [begin];
      ExecNothing(Step(s1, sender, begin).value, sender);
      OpeningFits(ledger, sender, [borrow, begin]);
    }
    hide Exec;
  }

  lemma OpeningFits(ledger: Ledger, sender: Address, cmds: seq<Command>)
    requires LedgerFits(ledger) && Exec(Opening(ledger, []), sender, cmds).Done?
    ensures SupplyFits(Exec(Opening(ledger, []), sender, cmds).value)
  {
    var s := Opening(ledger, []);
    forall t: string ensures Held(Exec(s, sender, cmds).value, t) < TWO_64 {
      ExecConserves(s, sender, cmds, t);
      assert LedgerHeld(ledger, t) < TWO_64;
      assert Held(s, t) == LedgerHeld(ledger, t);
    }
  }

  /** A transaction that reaches the gates of a flash plan commits exactly when the coin covers the profit
      target and the debt; with a target of at least the fee the profit gate alone decides. The sender keeps
      the rest and the vault gains the fee. */
  ghost predicate GatesSettle(ledger: Ledger, e: Effects, swapped: Ledger, sender: Address, lender: nat,
                              amount: u64, final: u64, minProfit: u64)
    requires lender < |ledger.vaults|
  {
    var v := ledger.vaults[lender];
    var fee := ExactFee(amount, v.feeBps);
    && (e.Committed? <==> final >= amount + minProfit && final >= amount + fee)
    && (minProfit >= fee ==> (e.Committed? <==> AssertProfit(amount, minProfit, final).Done?))
    && (e.Committed? ==>
          && e.delivered == [Holding(sender, Coin(v.token, final - amount - fee))]
          && e.ledger.pools == swapped.pools
          && OneVaultGains(ledger.vaults, e.ledger.vaults, lender, fee))
  }

  lemma GatesFinish(ledger: Ledger, sender: Address, lender: nat, cmds: seq<Command>, swapped: Running, n: nat,
                    amount: u64, fee: u64, minProfit: u64)
    requires lender < |ledger.vaults| && fee == ExactFee(amount, ledger.vaults[lender].feeBps)
    requires Exec(Opening(ledger, []), sender, cmds) == Exec(swapped, sender, GateCommands(n, lender, sender))
    requires AtGates(swapped, n, lender, fee, minProfit, sender) && SupplyFits(swapped)
    requires swapped.loans[0].receipt.amount == amount
    requires OneVaultGains(ledger.vaults, swapped.ledger.vaults, lender, 0 - amount)
    requires swapped.coins[n].value.token == ledger.vaults[lender].token
    ensures GatesSettle(ledger, Transact(ledger, sender, [], cmds), swapped.ledger, sender, lender,
                        amount, swapped.coins[n].value.value, minProfit)
  {
    hide Exec, ExactFee, SupplyFits, GateCommands;
    GatesDecide(swapped, sender, n, lender, fee, minProfit);
    GateIsExact(amount, minProfit, swapped.coins[n].value.value);
  }

  /** For every route over every ledger: if the swaps of a flash plan leave a coin of the lent token, the
      gates settle the transaction. */
  lemma FlashPlanCommits(ledger: Ledger, sender: Address, lender: nat, route: Route, hops: seq<ResolvedHop>,
                         amount: u64, minProfit: u64)
    requires lender < |ledger.vaults| && LedgerFits(ledger) && |hops| == |route|
    requires FlashOpening(ledger, sender, lender, amount, minProfit).Done?
    requires Exec(FlashOpening(ledger, sender, lender, amount, minProfit).value, sender, SwapCommands(route, hops, 0)).Done?
    ensures var swapped := Exec(FlashOpening(ledger, sender, lender, amount, minProfit).value, sender,
                                SwapCommands(route, hops, 0)).value;
            var cmds := FlashCommands(lender, route, hops, amount, minProfit, sender);
            && OneCoin(swapped, |route|)
            && (swapped.coins[|route|].value.token == ledger.vaults[lender].token ==>
                  GatesSettle(ledger, Transact(ledger, sender, [], cmds), swapped.ledger, sender, lender,
                              amount, swapped.coins[|route|].value.value, minProfit))
  {
    FlashOpens(ledger, sender, lender, amount, minProfit);
    FlashSplits(ledger, sender, lender, route, hops, amount, minProfit);
    FlashSwappedFits(ledger, sender, lender, route, hops, amount, minProfit);
    hide Exec, ExactFee, SwapCommands, FlashCommands, SupplyFits, LedgerFits, FlashOpening, GatesSettle, Transact;
    var running := FlashOpening(ledger, sender, lender, amount, minProfit).value;
    SwapsPassOneCoin(running, sender, route, hops, 0);
    var swapped := Exec(running, sender, SwapCommands(route, hops, 0)).value;
    if swapped.coins[|route|].value.token == ledger.vaults[lender].token {
      GatesFinish(ledger, sender, lender, FlashCommands(lender, route, hops, amount, minProfit, sender), swapped,
                  |route|, amount, running.loans[0].receipt.fee, minProfit);
    }
  }

  /** The three stretches of a flash plan, run one after the other. */
  lemma FlashSplits(ledger: Ledger, sender: Address, lender: nat, route: Route, hops: seq<ResolvedHop>,
                    amount: u64, minProfit: u64)
    requires |hops| == |route|
    ensures Exec(Opening(ledger, []), sender, FlashCommands(lender, route, hops, amount, minProfit, sender))
            == Then(Then(FlashOpening(ledger, sender, lender, amount, minProfit), sender, SwapCommands(route, hops, 0)),
                    sender, GateCommands(|route|, lender, sender))
  {
    var s0, opening := Opening(ledger, []), [BorrowLoan(lender, amount), BeginArb(0, minProfit)];
    var swaps, gates := SwapCommands(route, hops, 0), GateCommands(|route|, lender, sender);
    hide Exec, SwapCommands;
    ExecConcat(s0, sender, opening, swaps);
    ExecConcat(s0, sender, opening + swaps, gates);
    assert FlashCommands(lender, route, hops, amount, minProfit, sender) == (opening + swaps) + gates;
  }

  lemma FlashSwappedFits(ledger: Ledger, sender: Address, lender: nat, route: Route, hops: seq<ResolvedHop>,
                         amount: u64, minProfit: u64)
    requires |hops| == |route| && LedgerFits(ledger)
    requires FlashOpening(ledger, sender, lender, amount, minProfit).Done?
    requires Exec(FlashOpening(ledger, sender, lender, amount, minProfit).value, sender, SwapCommands(route, hops, 0)).Done?
    ensures SupplyFits(Exec(FlashOpening(ledger, sender, lender, amount, minProfit).value, sender,
                            SwapCommands(route, hops, 0)).value)
  {
    var s0, opening := Opening(ledger, []), [BorrowLoan(lender, amount), BeginArb(0, minProfit)];
    var swaps := SwapCommands(route, hops, 0);
    hide Exec, SwapCommands, SupplyFits;
    ExecConcat(s0, sender, opening, swaps);
    OpeningFits(ledger, sender, opening + swaps);
  }
}
