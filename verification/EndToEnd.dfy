/** What the scanner promises is what the atomic transaction pays. */
module EndToEnd {
  import opened Arith
  import opened Chain
  import opened Flash
  import opened Executor
  import opened Ptb
  import opened PtbSafety
  import opened Cycles
  import opened CycleLaws
  import opened Scanner
  import opened FindBest
  import opened Routes
  import opened Plans
  import opened Execution

  /** `apply_slippage_floor`, with its saturating subtraction. */
  function ApplySlippageFloor(out: u64, slippageBps: u64): u64 {
    var keep := if slippageBps <= 10_000 then 10_000 - slippageBps else 0;
    FloorFits(out, keep);
    out * keep / 10_000
  }

  lemma FloorFits(out: u64, keep: nat)
    requires keep <= 10_000
    ensures 0 <= out * keep / 10_000 <= out
  {
    MulLe(keep, 10_000, out);
    MulNonNeg(out, keep);
  }

  /** The floor is the greatest amount that gives up at least the tolerated share, all of it from 100% on; it
      never exceeds the simulated output and equals it exactly when there is nothing to give up. */
  lemma SlippageFloorTight(out: u64, slippageBps: u64, f: nat)
    ensures var floor := ApplySlippageFloor(out, slippageBps);
            && (slippageBps <= 10_000 ==> (f * 10_000 <= out * (10_000 - slippageBps) <==> f <= floor))
            && (slippageBps >= 10_000 ==> floor == 0)
            && floor <= out && (floor == out <==> out == 0 || slippageBps == 0)
  {
    var keep := if slippageBps <= 10_000 then 10_000 - slippageBps else 0;
    FloorFits(out, keep);
    GreatestQuotient(out * keep, 10_000, f);
    GreatestQuotient(out * keep, 10_000, out);
    if slippageBps <= 10_000 {
      assert out * 10_000 - out * keep == out * slippageBps;
      if out > 0 && slippageBps > 0 { MulLt(0, out, slippageBps); }
    }
  }

  /** Resolving a hop by pool id. */
  function IndexOf(pools: seq<PoolState>, id: string): nat {
    if pools == [] || pools[0].id == id then 0 else 1 + IndexOf(pools[1..], id)
  }

  lemma {:induction false} IndexOfFinds(pools: seq<PoolState>, i: nat)
    requires i < |pools| && UniqueIds(pools)
    ensures IndexOf(pools, pools[i].id) == i
  {
    if i > 0 {
      assert pools[0].id != pools[i].id;
      assert pools[1..][i - 1] == pools[i];
      IndexOfFinds(pools[1..], i - 1);
    }
  }

  /** Pool objects by id, floors from the simulated outputs. */
  function ResolveHops(pools: seq<PoolState>, route: Route, outs: seq<u64>, slippageBps: u64): (hops: seq<ResolvedHop>)
    requires |outs| == |route|
    ensures |hops| == |route|
    ensures forall i :: 0 <= i < |route| ==>
              hops[i] == ResolvedHop(IndexOf(pools, route[i].poolId), ApplySlippageFloor(outs[i], slippageBps))
  {
    seq(|route|, i requires 0 <= i < |route| =>
      ResolvedHop(IndexOf(pools, route[i].poolId), ApplySlippageFloor(outs[i], slippageBps)))
  }

  /** A hop of the snapshot resolves to its own pool, which is also the one the book prices it by. */
  lemma HopResolves(pools: seq<PoolState>, h: Hop)
    requires UniqueIds(pools) && IsHop(pools, h)
    ensures var k := IndexOf(pools, h.poolId);
            && k < |pools| && HopThrough(pools[k], h) && pools[k].id == h.poolId
            && h.poolId in ById(pools) && ById(pools)[h.poolId] == pools[k]
  {
    var k :| 0 <= k < |pools| && HopThrough(pools[k], h);
    IndexOfFinds(pools, k);
    ByIdHolds(pools);
  }

  lemma RouteResolves(pools: seq<PoolState>, params: ScanParams, o: Opportunity, slippageBps: u64)
    requires UniqueIds(pools) && Reported(pools, params, o) && |o.hopOutputs| == |o.route|
    ensures var hops := ResolveHops(pools, o.route, o.hopOutputs, slippageBps);
            && Resolved(pools, o.route, hops) && Priced(ById(pools), pools, o.route, hops)
            && FloorsMet(hops, o.hopOutputs)
  {
    OpportunityPoolsDistinct(pools, params, o);
    CycleHops(pools, params.baseToken, params.maxHops, o.route);
    hide Reported, SimpleCycle, UniqueIds, IsHop, HopFits, Resolved, Priced, FloorsMet, IndexOf, ApplySlippageFloor, ById;
    var hops := ResolveHops(pools, o.route, o.hopOutputs, slippageBps);
    forall i | 0 <= i < |o.route| ensures HopFits(pools, o.route[i], hops[i], o.hopOutputs[i]) {
      OneResolves(pools, o.route[i], o.hopOutputs[i], slippageBps);
    }
    hide ResolveHops;
    AllResolve(pools, o.route, hops, o.hopOutputs);
  }

  /** A hop is resolved to its own pool, with a floor its simulated output meets. */
  predicate HopFits(pools: seq<PoolState>, h: Hop, hop: ResolvedHop, out: u64) {
    && hop.pool < |pools| && HopThrough(pools[hop.pool], h) && pools[hop.pool].id == h.poolId
    && h.poolId in ById(pools) && ById(pools)[h.poolId] == pools[hop.pool]
    && hop.minOut <= out
  }

  lemma OneResolves(pools: seq<PoolState>, h: Hop, out: u64, slippageBps: u64)
    requires UniqueIds(pools) && IsHop(pools, h)
    ensures HopFits(pools, h, ResolvedHop(IndexOf(pools, h.poolId), ApplySlippageFloor(out, slippageBps)), out)
  {
    HopResolves(pools, h);
    SlippageFloorTight(out, slippageBps, 0);
    hide UniqueIds, IsHop, IndexOf, ApplySlippageFloor, ById, HopThrough;
  }

  lemma CycleHops(pools: seq<PoolState>, base: string, maxHops: nat, r: Route)
    requires SimpleCycle(pools, base, maxHops, r)
    ensures forall i :: 0 <= i < |r| ==> IsHop(pools, r[i])
    ensures forall i :: 0 < i < |r| ==> r[i].tokenIn == r[i - 1].tokenOut
  {
    hide IsHop;
  }

  lemma AllResolve(pools: seq<PoolState>, route: Route, hops: seq<ResolvedHop>, outs: seq<u64>)
    requires |hops| == |route| == |outs|
    requires forall i :: 0 <= i < |route| ==> HopFits(pools, route[i], hops[i], outs[i])
    requires forall i, j :: 0 <= i < j < |route| ==> route[i].poolId != route[j].poolId
    requires forall i :: 0 < i < |route| ==> route[i].tokenIn == route[i - 1].tokenOut
    ensures Resolved(pools, route, hops) && Priced(ById(pools), pools, route, hops) && FloorsMet(hops, outs)
  {
    hide ById, HopThrough;
  }

  lemma ReportedFacts(pools: seq<PoolState>, params: ScanParams, o: Opportunity)
    requires Reported(pools, params, o)
    ensures ValidBook(ById(pools))
    ensures |o.hopOutputs| == |o.route| >= 2 && o.outputAmount == o.hopOutputs[|o.route| - 1]
    ensures HopOutputs(ById(pools), o.route, o.inputAmount) == Some(o.hopOutputs)
    ensures o.outputAmount > o.inputAmount && o.grossProfit == o.outputAmount - o.inputAmount
    ensures o.route[0].tokenIn == params.baseToken && o.route[|o.route| - 1].tokenOut == params.baseToken
  {
    NetProfitExact(ById(pools), o.route, params, o.inputAmount);
    hide HopOutputs, FlashFee;
  }

  lemma SnapshotUntouched(pools: seq<PoolState>, onchain: seq<OnchainPool>, hops: seq<ResolvedHop>, route: Route)
    requires Snapshot(pools, onchain) && Resolved(pools, route, hops)
    ensures Untouched(pools, onchain, hops) && AllV2(pools)
  {}

  /** Each pool of the route took the previous amount and paid the reported hop output; the others are as before. */
  ghost predicate PoolsPaid(pools: seq<PoolState>, before: seq<OnchainPool>, after: seq<OnchainPool>, o: Opportunity,
                            slippageBps: u64)
    requires AllV2(pools) && |o.hopOutputs| == |o.route|
  {
    var hops := ResolveHops(pools, o.route, o.hopOutputs, slippageBps);
    PoolsMoved(pools, after, o.route, hops, o.inputAmount, o.hopOutputs) && OthersKept(before, after, hops)
  }

  /** The swaps go through exactly when every product fits `u128`, and then pay the reported outputs, hop by hop. */
  ghost predicate SwapsAsReported(pools: seq<PoolState>, params: ScanParams, o: Opportunity, s: Running, c: nat,
                                  sender: Address, slippageBps: u64)
    requires ValidBook(ById(pools)) && AllV2(pools) && |o.hopOutputs| == |o.route|
  {
    var r := Exec(s, sender, SwapCommands(o.route, ResolveHops(pools, o.route, o.hopOutputs, slippageBps), c));
    && (r.Done? <==> FitsAlong(ById(pools), o.route, o.inputAmount))
    && (r.Done? ==>
          && SameDebts(s, r.value) && SupplyFits(r.value)
          && OnlyCoin(r.value, c + |o.route|, Coin(params.baseToken, o.outputAmount))
          && PoolsPaid(pools, s.ledger.pools, r.value.ledger.pools, o, slippageBps))
  }

  /** The swaps of a reported opportunity, run on the snapshot's pools from any slot. */
  lemma ReportedSwaps(pools: seq<PoolState>, params: ScanParams, o: Opportunity, s: Running, c: nat, sender: Address,
                      slippageBps: u64)
    requires UniqueIds(pools) && Reported(pools, params, o) && |o.hopOutputs| == |o.route|
    requires Snapshot(pools, s.ledger.pools) && SupplyFits(s)
    requires OnlyCoin(s, c, Coin(params.baseToken, o.inputAmount))
    ensures SwapsAsReported(pools, params, o, s, c, sender, slippageBps)
  {
    hide *;
    var hops := ResolveHops(pools, o.route, o.hopOutputs, slippageBps);
    ReportedFacts(pools, params, o);
    RouteResolves(pools, params, o, slippageBps);
    SnapshotUntouched(pools, s.ledger.pools, hops, o.route);
    RouteReady(s, ById(pools), pools, o.route, hops, c, params.baseToken, o.inputAmount, o.hopOutputs);
    var r := Exec(s, sender, SwapCommands(o.route, hops, c));
    if FitsAlong(ById(pools), o.route, o.inputAmount) {
      SwapsPayQuotes(s, sender, ById(pools), pools, o.route, hops, c, params.baseToken, o.inputAmount, o.hopOutputs);
      PaidIsReported(pools, params, o, s, r.value, c, slippageBps);
    } else {
      SwapsAbortOnOverflow(s, sender, ById(pools), pools, o.route, hops, c, params.baseToken, o.inputAmount, o.hopOutputs);
    }
    AsReported(pools, params, o, s, c, sender, slippageBps, r);
  }

  lemma AsReported(pools: seq<PoolState>, params: ScanParams, o: Opportunity, s: Running, c: nat, sender: Address,
                   slippageBps: u64, r: Outcome<Running>)
    requires ValidBook(ById(pools)) && AllV2(pools) && |o.hopOutputs| == |o.route|
    requires r == Exec(s, sender, SwapCommands(o.route, ResolveHops(pools, o.route, o.hopOutputs, slippageBps), c))
    requires r.Done? <==> FitsAlong(ById(pools), o.route, o.inputAmount)
    requires r.Done? ==>
               && SameDebts(s, r.value) && SupplyFits(r.value)
               && OnlyCoin(r.value, c + |o.route|, Coin(params.baseToken, o.outputAmount))
               && PoolsPaid(pools, s.ledger.pools, r.value.ledger.pools, o, slippageBps)
    ensures SwapsAsReported(pools, params, o, s, c, sender, slippageBps)
  {
    hide ValidBook, ById, AllV2, Exec, SwapCommands, ResolveHops, FitsAlong, SameDebts, SupplyFits, OnlyCoin, PoolsPaid;
  }

  lemma RouteReady(s: Running, book: Book, pools: seq<PoolState>, route: Route, hops: seq<ResolvedHop>, c: nat,
                   token: string, amount: u64, outs: seq<u64>)
    requires ValidBook(book) && Resolved(pools, route, hops) && Priced(book, pools, route, hops)
    requires Untouched(pools, s.ledger.pools, hops) && SupplyFits(s) && OnlyCoin(s, c, Coin(token, amount))
    requires route != [] && route[0].tokenIn == token
    requires HopOutputs(book, route, amount) == Some(outs) && FloorsMet(hops, outs)
    ensures Ready(s, book, pools, route, hops, c, token, amount, outs)
  {
    hide ValidBook, Resolved, Priced, Untouched, SupplyFits, OnlyCoin, HopOutputs, FloorsMet;
  }

  lemma PaidIsReported(pools: seq<PoolState>, params: ScanParams, o: Opportunity, s: Running, end: Running, c: nat,
                       slippageBps: u64)
    requires AllV2(pools) && |o.hopOutputs| == |o.route| && o.route != []
    requires o.route[|o.route| - 1].tokenOut == params.baseToken && o.outputAmount == o.hopOutputs[|o.route| - 1]
    requires Paid(s, end, pools, o.route, ResolveHops(pools, o.route, o.hopOutputs, slippageBps), c, params.baseToken,
                  o.inputAmount, o.hopOutputs)
    ensures SameDebts(s, end) && SupplyFits(end)
    ensures OnlyCoin(end, c + |o.route|, Coin(params.baseToken, o.outputAmount))
    ensures PoolsPaid(pools, s.ledger.pools, end.ledger.pools, o, slippageBps)
  {
    hide SameDebts, SupplyFits, OnlyCoin, PoolsMoved, OthersKept, ResolveHops;
  }

  /** The flash transaction the executor submits for an opportunity. */
  function FlashTransaction(pools: seq<PoolState>, o: Opportunity, lender: nat, minProfit: u64, slippageBps: u64,
                            sender: Address): seq<Command>
    requires |o.hopOutputs| == |o.route|
  {
    Lower(FlashSteps(lender, o.route, o.inputAmount, minProfit),
          ResolveHops(pools, o.route, o.hopOutputs, slippageBps), 0, sender)
  }

  /** Command by command: between the loan and the gates, each hop swaps on its own pool, in its direction, with the
      floor taken from its simulated output. */
  lemma FlashTransactionIs(pools: seq<PoolState>, o: Opportunity, lender: nat, minProfit: u64, slippageBps: u64,
                           sender: Address)
    requires |o.hopOutputs| == |o.route|
    ensures var n, cmds := |o.route|, FlashTransaction(pools, o, lender, minProfit, slippageBps, sender);
            && |cmds| == n + 5
            && cmds[0] == BorrowLoan(lender, o.inputAmount) && cmds[1] == BeginArb(0, minProfit)
            && (forall i :: 0 <= i < n ==> cmds[i + 2] == FlooredSwap(pools, o, i, 0, slippageBps))
            && cmds[n + 2] == SettleAndReturn(0, n) && cmds[n + 3] == RepayLoan(lender, 0, n)
            && cmds[n + 4] == TransferCoin(n + 1, sender)
  {
    var hops := ResolveHops(pools, o.route, o.hopOutputs, slippageBps);
    LowerFlash(lender, o.route, hops, o.inputAmount, minProfit, sender);
    SwapCommandsAre(o.route, hops, 0);
    hide Lower, FlashSteps, SwapCommands, IndexOf, ApplySlippageFloor;
  }

  function FlooredSwap(pools: seq<PoolState>, o: Opportunity, i: nat, first: nat, slippageBps: u64): Command
    requires i < |o.route| == |o.hopOutputs|
  {
    SwapExactIn(IndexOf(pools, o.route[i].poolId), o.route[i].aToB, first + i,
                ApplySlippageFloor(o.hopOutputs[i], slippageBps))
  }

  /** It commits exactly when the vault holds the loan, every product fits `u128` and the simulated gross profit
      covers both the profit target and the flash fee; the sender is then paid the simulated output less loan and
      fee, the vault gains the fee, and each pool has paid its simulated hop output. */
  ghost predicate FlashPays(pools: seq<PoolState>, params: ScanParams, o: Opportunity, ledger: Ledger, e: Effects,
                            sender: Address, lender: nat, minProfit: u64, slippageBps: u64)
  {
    && ValidBook(ById(pools)) && AllV2(pools) && |o.hopOutputs| == |o.route| && lender < |ledger.vaults|
    && var fee := ExactFee(o.inputAmount, ledger.vaults[lender].feeBps);
    && (e.Committed? <==>
          && o.inputAmount <= ledger.vaults[lender].reserve && FitsAlong(ById(pools), o.route, o.inputAmount)
          && minProfit <= o.grossProfit && fee <= o.grossProfit)
    && (e.Committed? ==>
          && o.outputAmount - o.inputAmount - fee >= 0
          && e.delivered == [Holding(sender, Coin(params.baseToken, o.outputAmount - o.inputAmount - fee))]
          && OneVaultGains(ledger.vaults, e.ledger.vaults, lender, fee)
          && PoolsPaid(pools, ledger.pools, e.ledger.pools, o, slippageBps))
  }

  /** Simulation equals execution, flash-funded: on a V2 snapshot, the transaction for a reported
      opportunity, run against the same pools, pays what the scan promised. */
  lemma FlashSimulationIsExecution(pools: seq<PoolState>, params: ScanParams, o: Opportunity, ledger: Ledger,
                                   sender: Address, lender: nat, minProfit: u64, slippageBps: u64)
    requires UniqueIds(pools) && Reported(pools, params, o)
    requires Snapshot(pools, ledger.pools) && LedgerFits(ledger)
    requires lender < |ledger.vaults| && ledger.vaults[lender].token == params.baseToken
    ensures |o.hopOutputs| == |o.route|
    ensures FlashPays(pools, params, o, ledger,
                      Transact(ledger, sender, [], FlashTransaction(pools, o, lender, minProfit, slippageBps, sender)),
                      sender, lender, minProfit, slippageBps)
  {
    ReportedFacts(pools, params, o);
    assert AllV2(pools);
    hide *;
    if ExactFee(o.inputAmount, ledger.vaults[lender].feeBps) < TWO_64 && o.inputAmount <= ledger.vaults[lender].reserve {
      var running := FlashOpened(pools, params, o, ledger, sender, lender, minProfit, slippageBps);
      ReportedSwaps(pools, params, o, running, 0, sender, slippageBps);
      FlashSettles(pools, params, o, ledger, running, sender, lender, minProfit, slippageBps);
    } else {
      FlashUnfunded(pools, o, ledger, sender, lender, minProfit, slippageBps);
      UnfundedPays(pools, params, o, ledger, sender, lender, minProfit, slippageBps);
    }
  }

  /** A loan the vault cannot give, or whose fee does not fit, rolls the transaction back. */
  lemma FlashUnfunded(pools: seq<PoolState>, o: Opportunity, ledger: Ledger, sender: Address, lender: nat, minProfit: u64,
                      slippageBps: u64)
    requires |o.hopOutputs| == |o.route| && lender < |ledger.vaults| && LedgerFits(ledger)
    requires ExactFee(o.inputAmount, ledger.vaults[lender].feeBps) >= TWO_64
             || o.inputAmount > ledger.vaults[lender].reserve
    ensures Transact(ledger, sender, [], FlashTransaction(pools, o, lender, minProfit, slippageBps, sender)) == RolledBack
  {
    var hops := ResolveHops(pools, o.route, o.hopOutputs, slippageBps);
    LowerFlash(lender, o.route, hops, o.inputAmount, minProfit, sender);
    assert FlashTransaction(pools, o, lender, minProfit, slippageBps, sender)
        == FlashCommands(lender, o.route, hops, o.inputAmount, minProfit, sender);
    FlashOpens(ledger, sender, lender, o.inputAmount, minProfit);
    FlashSplits(ledger, sender, lender, o.route, hops, o.inputAmount, minProfit);
    hide FlashOpening, Exec, SwapCommands, FlashCommands, FlashTransaction, SupplyFits, OnlyCoin, GateCommands, Opening,
         LedgerFits, ExactFee, AtGates;
  }

  lemma UnfundedPays(pools: seq<PoolState>, params: ScanParams, o: Opportunity, ledger: Ledger, sender: Address,
                     lender: nat, minProfit: u64, slippageBps: u64)
    requires ValidBook(ById(pools)) && AllV2(pools) && |o.hopOutputs| == |o.route| && lender < |ledger.vaults|
    requires ExactFee(o.inputAmount, ledger.vaults[lender].feeBps) >= TWO_64
             || o.inputAmount > ledger.vaults[lender].reserve
    ensures FlashPays(pools, params, o, ledger, RolledBack, sender, lender, minProfit, slippageBps)
  {
    hide ValidBook, ById, AllV2, ExactFee, FitsAlong, PoolsPaid, OneVaultGains;
  }


  /** Once the swaps have done what was reported, the gates decide. */
  lemma FlashSettles(pools: seq<PoolState>, params: ScanParams, o: Opportunity, ledger: Ledger, running: Running,
                     sender: Address, lender: nat, minProfit: u64, slippageBps: u64)
    requires ValidBook(ById(pools)) && AllV2(pools) && |o.hopOutputs| == |o.route|
    requires o.outputAmount > o.inputAmount && o.grossProfit == o.outputAmount - o.inputAmount
    requires lender < |ledger.vaults| && ledger.vaults[lender].token == params.baseToken && LedgerFits(ledger)
    requires o.inputAmount <= ledger.vaults[lender].reserve
    requires FlashOpening(ledger, sender, lender, o.inputAmount, minProfit) == Done(running)
    requires FlashRuns(pools, o, ledger, running, sender, lender, minProfit, slippageBps)
    requires SwapsAsReported(pools, params, o, running, 0, sender, slippageBps)
    requires running.ledger.pools == ledger.pools
    ensures FlashPays(pools, params, o, ledger,
                      Transact(ledger, sender, [], FlashTransaction(pools, o, lender, minProfit, slippageBps, sender)),
                      sender, lender, minProfit, slippageBps)
  {
    var hops := ResolveHops(pools, o.route, o.hopOutputs, slippageBps);
    var swapped := Exec(running, sender, SwapCommands(o.route, hops, 0));
    var cmds := FlashTransaction(pools, o, lender, minProfit, slippageBps, sender);
    hide Exec, FlashOpening, ValidBook, AllV2, LedgerFits, OnlyCoin, SupplyFits, SameDebts, PoolsPaid, FlashPays,
         ResolveHops, SwapCommands, FlashTransaction, FlashCommands, GateCommands, Transact, FitsAlong, ById, GatesSettle;
    if swapped.Done? {
      FlashPlanCommits(ledger, sender, lender, o.route, hops, o.inputAmount, minProfit);
      OnlyCoinIs(swapped.value, |o.route|, Coin(params.baseToken, o.outputAmount));
      FlashConcludes(pools, params, o, ledger, Transact(ledger, sender, [], cmds), swapped.value.ledger,
                     sender, lender, minProfit, slippageBps);
    } else {
      FlashAborts(pools, params, o, ledger, cmds, running, swapped, sender, lender, minProfit, slippageBps);
    }
  }

  /** The transaction is the flash plan's, and goes on from the opened state with the swaps and the gates. */
  predicate FlashRuns(pools: seq<PoolState>, o: Opportunity, ledger: Ledger, running: Running, sender: Address,
                      lender: nat, minProfit: u64, slippageBps: u64)
    requires |o.hopOutputs| == |o.route|
  {
    var hops := ResolveHops(pools, o.route, o.hopOutputs, slippageBps);
    var cmds := FlashTransaction(pools, o, lender, minProfit, slippageBps, sender);
    && cmds == FlashCommands(lender, o.route, hops, o.inputAmount, minProfit, sender)
    && Exec(Opening(ledger, []), sender, cmds)
       == Then(Exec(running, sender, SwapCommands(o.route, hops, 0)), sender, GateCommands(|o.route|, lender, sender))
  }

  /** It opens with the loan as the only coin. */
  lemma FlashOpened(pools: seq<PoolState>, params: ScanParams, o: Opportunity, ledger: Ledger, sender: Address,
                    lender: nat, minProfit: u64, slippageBps: u64) returns (running: Running)
    requires |o.hopOutputs| == |o.route| && LedgerFits(ledger)
    requires lender < |ledger.vaults| && ledger.vaults[lender].token == params.baseToken
    requires ExactFee(o.inputAmount, ledger.vaults[lender].feeBps) < TWO_64
    requires o.inputAmount <= ledger.vaults[lender].reserve
    ensures FlashOpening(ledger, sender, lender, o.inputAmount, minProfit) == Done(running)
    ensures OnlyCoin(running, 0, Coin(params.baseToken, o.inputAmount)) && SupplyFits(running)
    ensures running.ledger.pools == ledger.pools
    ensures FlashRuns(pools, o, ledger, running, sender, lender, minProfit, slippageBps)
  {
    var hops := ResolveHops(pools, o.route, o.hopOutputs, slippageBps);
    LowerFlash(lender, o.route, hops, o.inputAmount, minProfit, sender);
    assert FlashTransaction(pools, o, lender, minProfit, slippageBps, sender)
        == FlashCommands(lender, o.route, hops, o.inputAmount, minProfit, sender);
    FlashOpens(ledger, sender, lender, o.inputAmount, minProfit);
    FlashSplits(ledger, sender, lender, o.route, hops, o.inputAmount, minProfit);
    running := FlashOpening(ledger, sender, lender, o.inputAmount, minProfit).value;
    hide FlashOpening, Exec, SwapCommands, FlashCommands, FlashTransaction, SupplyFits, OnlyCoin, GateCommands, Opening;
  }

  lemma OnlyCoinIs(s: Running, c: nat, coin: Coin)
    requires OnlyCoin(s, c, coin)
    ensures |s.coins| == c + 1 && s.coins[c] == Some(coin)
  {}

  lemma FlashConcludes(pools: seq<PoolState>, params: ScanParams, o: Opportunity, ledger: Ledger, e: Effects,
                       swapped: Ledger, sender: Address, lender: nat, minProfit: u64, slippageBps: u64)
    requires ValidBook(ById(pools)) && AllV2(pools) && |o.hopOutputs| == |o.route| && lender < |ledger.vaults|
    requires FitsAlong(ById(pools), o.route, o.inputAmount) && ledger.vaults[lender].token == params.baseToken
    requires o.inputAmount <= ledger.vaults[lender].reserve
    requires o.outputAmount > o.inputAmount && o.grossProfit == o.outputAmount - o.inputAmount
    requires GatesSettle(ledger, e, swapped, sender, lender, o.inputAmount, o.outputAmount, minProfit)
    requires PoolsPaid(pools, ledger.pools, swapped.pools, o, slippageBps)
    ensures FlashPays(pools, params, o, ledger, e, sender, lender, minProfit, slippageBps)
  {
    hide ValidBook, FitsAlong, ExactFee, OneVaultGains, PoolsPaid, AssertProfit;
  }

  lemma FlashAborts(pools: seq<PoolState>, params: ScanParams, o: Opportunity, ledger: Ledger, cmds: seq<Command>,
                    running: Running, swapped: Outcome<Running>, sender: Address, lender: nat, minProfit: u64,
                    slippageBps: u64)
    requires ValidBook(ById(pools)) && AllV2(pools) && |o.hopOutputs| == |o.route| && lender < |ledger.vaults|
    requires !FitsAlong(ById(pools), o.route, o.inputAmount) && swapped.Aborted?
    requires Exec(Opening(ledger, []), sender, cmds) == Then(swapped, sender, GateCommands(|o.route|, lender, sender))
    ensures FlashPays(pools, params, o, ledger, Transact(ledger, sender, [], cmds), sender, lender, minProfit, slippageBps)
  {
    hide Exec, ValidBook, FitsAlong, ExactFee;
  }

  /** A loan the vault can give goes through for every target up to the gross profit, and delivers the net profit
      plus the gas budget the scan had set aside. */
  ghost predicate NetIsPaid(pools: seq<PoolState>, params: ScanParams, o: Opportunity, ledger: Ledger, e: Effects,
                            sender: Address, lender: nat, minProfit: u64)
  {
    && ValidBook(ById(pools)) && lender < |ledger.vaults|
    && (e.Committed? <==>
          && ExactFee(o.inputAmount, ledger.vaults[lender].feeBps) < TWO_64
          && o.inputAmount <= ledger.vaults[lender].reserve
          && FitsAlong(ById(pools), o.route, o.inputAmount) && minProfit <= o.grossProfit)
    && (e.Committed? ==>
          && o.netProfit + params.gasCost < TWO_64
          && e.delivered == [Holding(sender, Coin(params.baseToken, o.netProfit + params.gasCost))]
          && OneVaultGains(ledger.vaults, e.ledger.vaults, lender, o.flashFee))
  }

  /** What the scan advertises is what arrives: with the vault's own fee rate and a positive profit floor the
      report's net profit covers the fee, so only the vault's funds, the target and the widths decide. */
  lemma NetProfitIsDelivered(pools: seq<PoolState>, params: ScanParams, o: Opportunity, ledger: Ledger,
                             sender: Address, lender: nat, minProfit: u64, slippageBps: u64)
    requires UniqueIds(pools) && Reported(pools, params, o)
    requires Snapshot(pools, ledger.pools) && LedgerFits(ledger)
    requires lender < |ledger.vaults| && ledger.vaults[lender].token == params.baseToken
    requires params.flashFeeBps == ledger.vaults[lender].feeBps && params.minProfit > 0
    ensures |o.hopOutputs| == |o.route|
    ensures NetIsPaid(pools, params, o, ledger,
                      Transact(ledger, sender, [], FlashTransaction(pools, o, lender, minProfit, slippageBps, sender)),
                      sender, lender, minProfit)
  {
    hide *;
    FlashSimulationIsExecution(pools, params, o, ledger, sender, lender, minProfit, slippageBps);
    NetCoversFee(pools, params, o);
    NetFollows(pools, params, o, ledger,
               Transact(ledger, sender, [], FlashTransaction(pools, o, lender, minProfit, slippageBps, sender)),
               sender, lender, minProfit, slippageBps);
  }

  lemma NetFollows(pools: seq<PoolState>, params: ScanParams, o: Opportunity, ledger: Ledger, e: Effects,
                   sender: Address, lender: nat, minProfit: u64, slippageBps: u64)
    requires lender < |ledger.vaults| && o.grossProfit == o.outputAmount - o.inputAmount
    requires var fee := ExactFee(o.inputAmount, ledger.vaults[lender].feeBps);
             fee < TWO_64 ==> o.flashFee == fee && o.netProfit == o.grossProfit - params.gasCost - fee
    requires FlashPays(pools, params, o, ledger, e, sender, lender, minProfit, slippageBps)
    ensures NetIsPaid(pools, params, o, ledger, e, sender, lender, minProfit)
  {
    hide FitsAlong, ById, ExactFee, OneVaultGains, PoolsPaid, ValidBook, AllV2;
  }

  lemma NetCoversFee(pools: seq<PoolState>, params: ScanParams, o: Opportunity)
    requires Reported(pools, params, o) && params.minProfit > 0
    ensures o.grossProfit == o.outputAmount - o.inputAmount
    ensures var fee := ExactFee(o.inputAmount, params.flashFeeBps);
            fee < TWO_64 ==> o.flashFee == fee && o.netProfit == o.grossProfit - params.gasCost - fee
  {
    NetProfitExact(ById(pools), o.route, params, o.inputAmount);
    FeeParity(o.inputAmount, params.flashFeeBps);
    FeeReported(ById(pools), o.route, params, o.inputAmount);
    hide *;
  }

  lemma FeeReported(book: Book, route: Route, params: ScanParams, input: u64)
    requires ValidBook(book) && EvaluateInput(book, route, params, input).Some? && params.minProfit > 0
    ensures var o := EvaluateInput(book, route, params, input).value;
            && o.flashFee == QuoteFeeBps(input, params.flashFeeBps)
            && o.netProfit == o.grossProfit - params.gasCost - o.flashFee
  {
    NoRateNoFee(input);
    hide HopOutputs, ValidBook, QuoteFeeBps;
  }

  // --- owned capital ---

  /** The owned transaction: the input is split off the gas coin, the sender's only input. */
  function OwnedTransaction(pools: seq<PoolState>, o: Opportunity, minProfit: u64, slippageBps: u64,
                            sender: Address): seq<Command>
    requires |o.hopOutputs| == |o.route|
  {
    [SplitCoin(0, o.inputAmount)]
    + Lower(OwnedSteps(o.route, minProfit), ResolveHops(pools, o.route, o.hopOutputs, slippageBps), 1, sender)
  }

  /** The same for owned capital, between the split and the settle. */
  lemma OwnedTransactionIs(pools: seq<PoolState>, o: Opportunity, minProfit: u64, slippageBps: u64, sender: Address)
    requires |o.hopOutputs| == |o.route|
    ensures var n, cmds := |o.route|, OwnedTransaction(pools, o, minProfit, slippageBps, sender);
            && |cmds| == n + 3
            && cmds[0] == SplitCoin(0, o.inputAmount) && cmds[1] == BeginArb(1, minProfit)
            && (forall i :: 0 <= i < n ==> cmds[i + 2] == FlooredSwap(pools, o, i, 1, slippageBps))
            && cmds[n + 2] == SettleArb(0, n + 1)
  {
    var hops := ResolveHops(pools, o.route, o.hopOutputs, slippageBps);
    LowerOwned(o.route, hops, o.inputAmount, minProfit, sender);
    SwapCommandsAre(o.route, hops, 1);
    hide Lower, OwnedSteps, SwapCommands, IndexOf, ApplySlippageFloor;
  }

  /** It commits exactly when the wallet covers the input, every product fits and the gross profit meets the
      target: the sender gets the simulated output and keeps what was left of the gas coin. */
  ghost predicate OwnedPays(pools: seq<PoolState>, params: ScanParams, o: Opportunity, ledger: Ledger, e: Effects,
                            sender: Address, wallet: u64, minProfit: u64, slippageBps: u64)
  {
    && ValidBook(ById(pools)) && AllV2(pools) && |o.hopOutputs| == |o.route|
    && (e.Committed? <==>
          o.inputAmount <= wallet && FitsAlong(ById(pools), o.route, o.inputAmount) && minProfit <= o.grossProfit)
    && (e.Committed? ==>
          && e.delivered == [Holding(sender, Coin(params.baseToken, o.outputAmount)),
                             Holding(sender, Coin(params.baseToken, wallet - o.inputAmount))]
          && e.ledger.vaults == ledger.vaults
          && PoolsPaid(pools, ledger.pools, e.ledger.pools, o, slippageBps))
  }

  /** Simulation equals execution, with owned capital. */
  lemma OwnedSimulationIsExecution(pools: seq<PoolState>, params: ScanParams, o: Opportunity, ledger: Ledger,
                                   sender: Address, wallet: u64, minProfit: u64, slippageBps: u64)
    requires UniqueIds(pools) && Reported(pools, params, o)
    requires Snapshot(pools, ledger.pools) && SupplyFits(Opening(ledger, [Coin(params.baseToken, wallet)]))
    ensures |o.hopOutputs| == |o.route|
    ensures OwnedPays(pools, params, o, ledger,
                      Transact(ledger, sender, [Coin(params.baseToken, wallet)],
                               OwnedTransaction(pools, o, minProfit, slippageBps, sender)),
                      sender, wallet, minProfit, slippageBps)
  {
    ReportedFacts(pools, params, o);
    assert AllV2(pools);
    hide *;
    var gas := Coin(params.baseToken, wallet);
    var cmds := OwnedTransaction(pools, o, minProfit, slippageBps, sender);
    if o.inputAmount <= wallet {
      var running := OwnedBegins(pools, o, ledger, sender, gas, minProfit, slippageBps);
      ReportedSwaps(pools, params, o, running, 1, sender, slippageBps);
      OwnedSettles(pools, params, o, ledger, running, sender, wallet, minProfit, slippageBps);
    } else {
      OwnedFallsShort(pools, o, ledger, sender, gas, minProfit, slippageBps);
      OwnedAborts(pools, params, o, ledger, cmds, sender, wallet, minProfit, slippageBps);
    }
  }

  /** Once the swaps have done what was reported, the settle gate decides. */
  lemma OwnedSettles(pools: seq<PoolState>, params: ScanParams, o: Opportunity, ledger: Ledger, running: Running,
                     sender: Address, wallet: u64, minProfit: u64, slippageBps: u64)
    requires ValidBook(ById(pools)) && AllV2(pools) && |o.hopOutputs| == |o.route|
    requires o.outputAmount > o.inputAmount && o.grossProfit == o.outputAmount - o.inputAmount
    requires OwnedOpened(running, ledger, sender, Coin(params.baseToken, wallet), o.inputAmount, minProfit)
    requires OwnedRuns(pools, o, ledger, running, sender, Coin(params.baseToken, wallet), minProfit, slippageBps)
    requires SwapsAsReported(pools, params, o, running, 1, sender, slippageBps)
    ensures OwnedPays(pools, params, o, ledger,
                      Transact(ledger, sender, [Coin(params.baseToken, wallet)],
                               OwnedTransaction(pools, o, minProfit, slippageBps, sender)),
                      sender, wallet, minProfit, slippageBps)
  {
    var swapped := Exec(running, sender,
                        SwapCommands(o.route, ResolveHops(pools, o.route, o.hopOutputs, slippageBps), 1));
    var cmds := OwnedTransaction(pools, o, minProfit, slippageBps, sender);
    hide Exec, ValidBook, AllV2, OnlyCoin, SupplyFits, SameDebts, PoolsPaid, OwnedPays, ResolveHops, SwapCommands,
         OwnedTransaction, Transact, FitsAlong, ById, OwnedOpened, Opening;
    if swapped.Done? {
      OwnedConcludes(pools, params, o, ledger, cmds, running, swapped, sender, wallet, minProfit, slippageBps);
    } else {
      OwnedAborts(pools, params, o, ledger, cmds, sender, wallet, minProfit, slippageBps);
    }
  }

  /** From the opened state the transaction goes on with the swaps and the settling of what they leave. */
  predicate OwnedRuns(pools: seq<PoolState>, o: Opportunity, ledger: Ledger, running: Running, sender: Address, gas: Coin,
                      minProfit: u64, slippageBps: u64)
    requires |o.hopOutputs| == |o.route|
  {
    Exec(Opening(ledger, [gas]), sender, OwnedTransaction(pools, o, minProfit, slippageBps, sender))
    == Then(Exec(running, sender, SwapCommands(o.route, ResolveHops(pools, o.route, o.hopOutputs, slippageBps), 1)),
            sender, [SettleArb(0, |o.route| + 1)])
  }

  /** Opened on a wallet that covers the input: slot 0 keeps the rest, slot 1 holds the input. */
  predicate OwnedOpened(s: Running, ledger: Ledger, sender: Address, gas: Coin, amount: u64, minProfit: u64) {
    && amount <= gas.value && OnlyCoin(s, 1, Coin(gas.token, amount)) && s.owned == {0}
    && s.coins[0] == Some(Coin(gas.token, gas.value - amount))
    && s.ledger == ledger && s.loans == [] && s.delivered == []
    && s.sessions == [Session(ArbReceipt(sender, amount, minProfit), gas.token, None)]
  }

  lemma OwnedOpens(ledger: Ledger, sender: Address, gas: Coin, amount: u64, minProfit: u64)
    requires SupplyFits(Opening(ledger, [gas])) && amount <= gas.value
    ensures var r := Exec(Opening(ledger, [gas]), sender, [SplitCoin(0, amount), BeginArb(1, minProfit)]);
            r.Done? && OwnedOpened(r.value, ledger, sender, gas, amount, minProfit) && SupplyFits(r.value)
  {
    var s0, split, begin := Opening(ledger, [gas]), SplitCoin(0, amount), BeginArb(1, minProfit);
    ExecOne(s0, sender, split, [begin]);
    assert [split] + [begin] == [split, begin];
    var s1 := Step(s0, sender, split).value;
    ExecOne(s1, sender, begin, []);
    assert [begin] + [] == [begin];
    var s := Step(s1, sender, begin).value;
    ExecNothing(s, sender);
    assert Exec(s0, sender, [split, begin]) == Done(s);
    assert OwnedOpened(s, ledger, sender, gas, amount, minProfit);
    hide *;
    forall t: string ensures Held(s, t) < TWO_64 {
      SupplyOf(s0, t);
      ExecConserves(s0, sender, [split, begin], t);
    }
    SupplyIs(s);
  }

  lemma SupplyOf(s: Running, t: string)
    requires SupplyFits(s)
    ensures Held(s, t) < TWO_64
  {}

  lemma SupplyIs(s: Running)
    requires forall t: string :: Held(s, t) < TWO_64
    ensures SupplyFits(s)
  {}

  /** What the transaction is: the opening, the swaps, and the settling of what they leave. */
  lemma OwnedParts(pools: seq<PoolState>, o: Opportunity, minProfit: u64, slippageBps: u64, sender: Address)
    requires |o.hopOutputs| == |o.route|
    ensures var hops := ResolveHops(pools, o.route, o.hopOutputs, slippageBps);
            OwnedTransaction(pools, o, minProfit, slippageBps, sender)
            == [SplitCoin(0, o.inputAmount), BeginArb(1, minProfit)]
               + (SwapCommands(o.route, hops, 1) + [SettleArb(0, |o.route| + 1)])
  {
    var hops := ResolveHops(pools, o.route, o.hopOutputs, slippageBps);
    LowerOwned(o.route, hops, o.inputAmount, minProfit, sender);
    hide Lower, SwapCommands;
  }

  lemma OwnedBegins(pools: seq<PoolState>, o: Opportunity, ledger: Ledger, sender: Address, gas: Coin, minProfit: u64,
                    slippageBps: u64) returns (running: Running)
    requires |o.hopOutputs| == |o.route| && o.inputAmount <= gas.value && SupplyFits(Opening(ledger, [gas]))
    ensures OwnedOpened(running, ledger, sender, gas, o.inputAmount, minProfit)
    ensures OnlyCoin(running, 1, Coin(gas.token, o.inputAmount)) && SupplyFits(running) && running.ledger == ledger
    ensures OwnedRuns(pools, o, ledger, running, sender, gas, minProfit, slippageBps)
  {
    var opening := [SplitCoin(0, o.inputAmount), BeginArb(1, minProfit)];
    var swaps := SwapCommands(o.route, ResolveHops(pools, o.route, o.hopOutputs, slippageBps), 1);
    var close := [SettleArb(0, |o.route| + 1)];
    OwnedParts(pools, o, minProfit, slippageBps, sender);
    OwnedOpens(ledger, sender, gas, o.inputAmount, minProfit);
    hide Exec, SwapCommands, OwnedTransaction, ResolveHops, SupplyFits, Opening;
    running := Exec(Opening(ledger, [gas]), sender, opening).value;
    ExecConcat(Opening(ledger, [gas]), sender, opening, swaps + close);
    ExecConcat(running, sender, swaps, close);
  }

  lemma OwnedFallsShort(pools: seq<PoolState>, o: Opportunity, ledger: Ledger, sender: Address, gas: Coin, minProfit: u64,
                        slippageBps: u64)
    requires |o.hopOutputs| == |o.route| && o.inputAmount > gas.value
    ensures Exec(Opening(ledger, [gas]), sender, OwnedTransaction(pools, o, minProfit, slippageBps, sender)).Aborted?
  {
    assert Step(Opening(ledger, [gas]), sender, SplitCoin(0, o.inputAmount)).Aborted?;
    hide Step, Opening, Lower;
  }

  lemma OwnedConcludes(pools: seq<PoolState>, params: ScanParams, o: Opportunity, ledger: Ledger, cmds: seq<Command>,
                       running: Running, r: Outcome<Running>, sender: Address, wallet: u64, minProfit: u64,
                       slippageBps: u64)
    requires ValidBook(ById(pools)) && AllV2(pools) && |o.hopOutputs| == |o.route|
    requires FitsAlong(ById(pools), o.route, o.inputAmount)
    requires o.outputAmount > o.inputAmount && o.grossProfit == o.outputAmount - o.inputAmount
    requires OwnedOpened(running, ledger, sender, Coin(params.baseToken, wallet), o.inputAmount, minProfit)
    requires r.Done? && SameDebts(running, r.value)
    requires OnlyCoin(r.value, 1 + |o.route|, Coin(params.baseToken, o.outputAmount))
    requires PoolsPaid(pools, running.ledger.pools, r.value.ledger.pools, o, slippageBps)
    requires Exec(Opening(ledger, [Coin(params.baseToken, wallet)]), sender, cmds)
             == Then(r, sender, [SettleArb(0, |o.route| + 1)])
    ensures OwnedPays(pools, params, o, ledger,
                      Transact(ledger, sender, [Coin(params.baseToken, wallet)], cmds),
                      sender, wallet, minProfit, slippageBps)
  {
    var rest := Coin(params.baseToken, wallet - o.inputAmount);
    OwnedCarries(running, r.value, ledger, sender, Coin(params.baseToken, wallet), o.inputAmount, minProfit,
                 |o.route| + 1, Coin(params.baseToken, o.outputAmount));
    hide *;
    OwnedEffects(ledger, sender, Coin(params.baseToken, wallet), cmds, r, |o.route| + 1, rest, o.inputAmount, minProfit);
    OwnedAssembles(pools, params, o, ledger, r.value.ledger, Transact(ledger, sender, [Coin(params.baseToken, wallet)], cmds),
                   sender, wallet, minProfit, slippageBps);
  }

  /** A transaction that settles the coin in slot `c` and has nothing else open. */
  lemma OwnedEffects(ledger: Ledger, sender: Address, gas: Coin, cmds: seq<Command>, r: Outcome<Running>, c: nat, rest: Coin,
                     amount: u64, minProfit: u64)
    requires r.Done? && OneCoin(r.value, c) && c > 0 && r.value.owned == {0} && r.value.coins[0] == Some(rest)
    requires r.value.loans == [] && r.value.delivered == []
    requires r.value.sessions == [Session(ArbReceipt(sender, amount, minProfit), rest.token, None)]
    requires Exec(Opening(ledger, [gas]), sender, cmds) == Then(r, sender, [SettleArb(0, c)])
    ensures var coin, e := r.value.coins[c].value, Transact(ledger, sender, [gas], cmds);
            && (e.Committed? <==> coin.value >= amount + minProfit)
            && (e.Committed? ==>
                  && e.delivered == [Holding(sender, coin)] + [Holding(sender, rest)]
                  && e.ledger == r.value.ledger)
  {
    hide *;
    ThenGoesOn(r, sender, [SettleArb(0, c)]);
    OwnedCloses(r.value, sender, c, rest, amount, minProfit);
    Transacts(ledger, sender, [gas], cmds);
  }

  lemma ThenGoesOn(r: Outcome<Running>, sender: Address, cmds: seq<Command>)
    requires r.Done?
    ensures Then(r, sender, cmds) == Exec(r.value, sender, cmds)
  {}

  lemma Transacts(ledger: Ledger, sender: Address, inputs: seq<Coin>, cmds: seq<Command>)
    ensures var r, e := Exec(Opening(ledger, inputs), sender, cmds), Transact(ledger, sender, inputs, cmds);
            && (e.Committed? <==> r.Done? && Discharged(r.value))
            && (e.Committed? ==> e.ledger == r.value.ledger && e.delivered == r.value.delivered + Kept(r.value.coins, sender))
  {
    hide Exec, Opening, Discharged, Kept;
  }

  lemma OwnedAssembles(pools: seq<PoolState>, params: ScanParams, o: Opportunity, ledger: Ledger, swapped: Ledger,
                       e: Effects, sender: Address, wallet: u64, minProfit: u64, slippageBps: u64)
    requires ValidBook(ById(pools)) && AllV2(pools) && |o.hopOutputs| == |o.route|
    requires FitsAlong(ById(pools), o.route, o.inputAmount) && o.inputAmount <= wallet
    requires o.outputAmount > o.inputAmount && o.grossProfit == o.outputAmount - o.inputAmount
    requires e.Committed? <==> o.outputAmount >= o.inputAmount + minProfit
    requires e.Committed? ==>
               && e.delivered == [Holding(sender, Coin(params.baseToken, o.outputAmount))]
                                 + [Holding(sender, Coin(params.baseToken, wallet - o.inputAmount))]
               && e.ledger == swapped
    requires swapped.vaults == ledger.vaults && PoolsPaid(pools, ledger.pools, swapped.pools, o, slippageBps)
    ensures OwnedPays(pools, params, o, ledger, e, sender, wallet, minProfit, slippageBps)
  {
    hide FitsAlong, PoolsPaid, ValidBook, AllV2, ById;
  }

  lemma OwnedCarries(s: Running, t: Running, ledger: Ledger, sender: Address, gas: Coin, amount: u64, minProfit: u64,
                     c: nat, coin: Coin)
    requires OwnedOpened(s, ledger, sender, gas, amount, minProfit) && SameDebts(s, t) && c > 0 && OnlyCoin(t, c, coin)
    ensures amount <= gas.value && s.ledger == ledger
    ensures OneCoin(t, c) && t.coins[c] == Some(coin) && t.owned == {0}
    ensures t.coins[0] == Some(Coin(gas.token, gas.value - amount))
    ensures t.loans == [] && t.delivered == [] && t.ledger.vaults == ledger.vaults
    ensures t.sessions == [Session(ArbReceipt(sender, amount, minProfit), gas.token, None)]
  {}

  lemma OwnedAborts(pools: seq<PoolState>, params: ScanParams, o: Opportunity, ledger: Ledger, cmds: seq<Command>,
                    sender: Address, wallet: u64, minProfit: u64, slippageBps: u64)
    requires ValidBook(ById(pools)) && AllV2(pools) && |o.hopOutputs| == |o.route|
    requires o.inputAmount > wallet || !FitsAlong(ById(pools), o.route, o.inputAmount)
    requires Exec(Opening(ledger, [Coin(params.baseToken, wallet)]), sender, cmds).Aborted?
    ensures OwnedPays(pools, params, o, ledger,
                      Transact(ledger, sender, [Coin(params.baseToken, wallet)], cmds),
                      sender, wallet, minProfit, slippageBps)
  {
    hide Exec, FitsAlong, PoolsPaid, ValidBook, AllV2, ById, Opening, Discharged;
  }

  lemma OwnedCloses(s: Running, sender: Address, c: nat, rest: Coin, amount: u64, minProfit: u64)
    requires OneCoin(s, c) && c > 0 && s.owned == {0} && s.coins[0] == Some(rest) && s.loans == [] && s.delivered == []
    requires s.sessions == [Session(ArbReceipt(sender, amount, minProfit), rest.token, None)]
    ensures var r := Exec(s, sender, [SettleArb(0, c)]);
            && (r.Done? <==> s.coins[c].value.value >= amount + minProfit)
            && (r.Done? ==> Discharged(r.value) && r.value.ledger == s.ledger
                            && r.value.delivered == [Holding(sender, s.coins[c].value)]
                            && Kept(r.value.coins, sender) == [Holding(sender, rest)])
  {
    GateIsExact(amount, minProfit, s.coins[c].value.value);
    ExecOne(s, sender, SettleArb(0, c), []);
    assert [SettleArb(0, c)] + [] == [SettleArb(0, c)];
    if Step(s, sender, SettleArb(0, c)).Done? {
      var end := Step(s, sender, SettleArb(0, c)).value;
      ExecNothing(end, sender);
      NothingKept(end.coins[1..], sender);
    }
    hide Exec;
  }
}
