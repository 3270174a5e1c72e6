/** The three-pool triangle of the repository's own tests, as a witness: its reported opportunity runs as a
    flash transaction that commits, so the premises of the joining theorem can be met. */
module Triangle {
  import opened Arith
  import opened Flash
  import opened Ptb
  import opened PtbSafety
  import opened Cycles
  import opened CycleLaws
  import opened Scanner
  import opened FindBest
  import opened Routes
  import opened AmmPool
  import opened Sums
  import opened Execution
  import opened EndToEnd

  function PoolOf(id: string, a: string, b: string, reserveB: u64): PoolState {
    PoolState(id, AmmV2, a, b, V2(1000, reserveB, 30))
  }

  /** C is worth about two A. */
  function Pools(): seq<PoolState> {
    [PoolOf("AB", "A", "B", 1000), PoolOf("BC", "B", "C", 1000), PoolOf("CA", "C", "A", 2000)]
  }

  function Around(): Route {
    [Hop("AB", AmmV2, "A", "B", true), Hop("BC", AmmV2, "B", "C", true), Hop("CA", AmmV2, "C", "A", true)]
  }

  function Params(): ScanParams {
    ScanParams("A", 3, [1, 2, 5, 10, 20, 50, 100], 0, 30, 1)
  }

  function Found(): Opportunity {
    Opportunity(Around(), 10, 15, [9, 8, 15], 5, 1, 4)
  }

  function Onchain(): Ledger {
    Ledger([Vault("A", 1_000_000, 30)],
           [OnchainPool("A", "B", Reserves(1000, 1000, 30)), OnchainPool("B", "C", Reserves(1000, 1000, 30)),
            OnchainPool("C", "A", Reserves(1000, 2000, 30))])
  }

  lemma IdsDiffer()
    ensures UniqueIds(Pools())
  {
    assert "AB"[0] != "BC"[0] && "AB"[0] != "CA"[0] && "BC"[0] != "CA"[0];
  }

  lemma Looked()
    ensures ValidBook(ById(Pools()))
    ensures forall i :: 0 <= i < 3 ==> Around()[i].poolId in ById(Pools()) && ById(Pools())[Around()[i].poolId] == Pools()[i]
  {
    IdsDiffer();
    ByIdHolds(Pools());
    BookIsValid(Pools());
    forall i | 0 <= i < 3
      ensures Around()[i].poolId in ById(Pools()) && ById(Pools())[Around()[i].poolId] == Pools()[i]
    {
      assert Around()[i].poolId == Pools()[i].id;
    }
  }

  predicate Pays(p: PoolState, amountIn: u64, amountOut: u64)
    requires ValidPool(p)
  {
    QuoteHop(p, true, amountIn) == Some(amountOut) && FitsHop(p, true, amountIn)
  }

  lemma FirstPays()
    ensures Pays(PoolOf("AB", "A", "B", 1000), 10, 9)
  {}

  lemma SecondPays()
    ensures Pays(PoolOf("BC", "B", "C", 1000), 9, 8)
  {}

  lemma ThirdPays()
    ensures Pays(PoolOf("CA", "C", "A", 2000), 8, 15)
  {}

  /** The route pays these outputs, and every product along it fits. */
  predicate Runs(book: Book, r: Route, amount: u64, outs: seq<u64>)
    requires ValidBook(book)
  {
    HopOutputs(book, r, amount) == Some(outs) && FitsAlong(book, r, amount)
  }

  lemma OneHop(book: Book, h: Hop, rest: Route, x: u64, y: u64, ys: seq<u64>)
    requires ValidBook(book) && h.poolId in book && h.aToB && Pays(book[h.poolId], x, y)
    requires Runs(book, rest, y, ys)
    ensures Runs(book, [h] + rest, x, [y] + ys)
  {
    hide QuoteHop, FitsHop, ValidPool;
    assert ([h] + rest)[1..] == rest;
    OutputsStep(book, [h] + rest, x);
  }

  lemma ThreeHops(book: Book, h0: Hop, h1: Hop, h2: Hop, x0: u64, x1: u64, x2: u64, x3: u64)
    requires ValidBook(book)
    requires h0.poolId in book && h0.aToB && Pays(book[h0.poolId], x0, x1)
    requires h1.poolId in book && h1.aToB && Pays(book[h1.poolId], x1, x2)
    requires h2.poolId in book && h2.aToB && Pays(book[h2.poolId], x2, x3)
    ensures Runs(book, [h0, h1, h2], x0, [x1, x2, x3])
  {
    OutputsEnd(book, [], x3);
    assert Runs(book, [], x3, []);
    hide *;
    OneHop(book, h2, [], x2, x3, []);
    OneHop(book, h1, [h2] + [], x1, x2, [x3] + []);
    OneHop(book, h0, [h1] + ([h2] + []), x0, x1, [x2] + ([x3] + []));
    assert [h0] + ([h1] + ([h2] + [])) == [h0, h1, h2];
    assert [x1] + ([x2] + ([x3] + [])) == [x1, x2, x3];
  }

  lemma Simulated()
    ensures ValidBook(ById(Pools()))
    ensures HopOutputs(ById(Pools()), Around(), 10) == Some([9, 8, 15])
    ensures FitsAlong(ById(Pools()), Around(), 10)
  {
    Looked();
    FirstPays();
    SecondPays();
    ThirdPays();
    var book := ById(Pools());
    assert forall i :: 0 <= i < 3 ==> Around()[i].poolId in book && book[Around()[i].poolId] == Pools()[i];
    hide ById, Pays, ValidPool, ValidBook, HopOutputs, FitsAlong;
    ThreeHops(book, Around()[0], Around()[1], Around()[2], 10, 9, 8, 15);
  }

  lemma IsCycle()
    ensures SimpleCycle(Pools(), "A", 3, Around())
  {
    forall i | 0 <= i < 3 ensures IsHop(Pools(), Around()[i]) {
      assert HopThrough(Pools()[i], Around()[i]);
    }
    hide IsHop, Pools;
    assert |Around()| == 3 && Around()[0].tokenIn == "A" && Around()[2].tokenOut == "A";
    assert Around()[0].tokenOut == "B" == Around()[1].tokenIn && Around()[1].tokenOut == "C" == Around()[2].tokenIn;
    assert "A"[0] != "B"[0] && "A"[0] != "C"[0] && "B"[0] != "C"[0];
  }

  /** The scan's report for input 10: 15 back, a fee of 1, a net profit of 4. */
  lemma IsReported()
    ensures Reported(Pools(), Params(), Found())
  {
    IsCycle();
    Simulated();
    Evaluated(ById(Pools()));
    hide HopOutputs, SimpleCycle, ById, ValidBook, EvaluateInput;
  }

  lemma Evaluated(book: Book)
    requires ValidBook(book) && HopOutputs(book, Around(), 10) == Some([9, 8, 15])
    ensures EvaluateInput(book, Around(), Params(), 10) == Some(Found())
  {
    hide HopOutputs, ValidBook;
    assert FlashFee(Params(), 10) == 1;
  }

  /** With a gas budget beyond the profit and no profit floor, the scan still reports the cycle, with a net
      profit of 0 in place of the loss. */
  lemma LossIsReported()
    ensures ValidBook(ById(Pools()))
    ensures var params := Params().(gasCost := 1_000_000, minProfit := 0);
            && EvaluateInput(ById(Pools()), Around(), params, 10) == Some(Found().(netProfit := 0))
            && NetSigned(ById(Pools()), Around(), params, 10) == Some(-999_996)
  {
    Simulated();
    hide *;
    LossEvaluated(ById(Pools()));
  }

  lemma LossEvaluated(book: Book)
    requires ValidBook(book) && HopOutputs(book, Around(), 10) == Some([9, 8, 15])
    ensures var params := Params().(gasCost := 1_000_000, minProfit := 0);
            && EvaluateInput(book, Around(), params, 10) == Some(Found().(netProfit := 0))
            && NetSigned(book, Around(), params, 10) == Some(-999_996)
  {
    hide HopOutputs, ValidBook;
    assert FlashFee(Params(), 10) == 1;
  }

  lemma SupplyIsSmall()
    ensures LedgerFits(Onchain())
  {
    forall t: string ensures LedgerHeld(Onchain(), t) < TWO_64 {
      var vs, ps := Onchain().vaults, Onchain().pools;
      assert SumBy(vs[1..], VaultWorth(t)) == 0;
      assert ps[1..][1..] == ps[2..] && ps[2..][1..] == ps[3..] && SumBy(ps[3..], PoolWorth(t)) == 0;
      assert SumBy(ps[2..], PoolWorth(t)) <= 3000;
      assert SumBy(ps[1..], PoolWorth(t)) <= 5000;
    }
  }

  /** With a profit target of 2 and any slippage tolerance, borrowing 10 pays the trader 4 and the vault 1. */
  lemma FlashTriangleCommits(trader: Address, slippageBps: u64)
    ensures Reported(Pools(), Params(), Found()) && UniqueIds(Pools())
    ensures var e := Transact(Onchain(), trader, [], FlashTransaction(Pools(), Found(), 0, 2, slippageBps, trader));
            && e.Committed?
            && e.delivered == [Holding(trader, Coin("A", 4))]
            && e.ledger.vaults == [Vault("A", 1_000_001, 30)]
  {
    IdsDiffer();
    IsReported();
    Simulated();
    SupplyIsSmall();
    PremisesHold();
    hide *;
    FlashSimulationIsExecution(Pools(), Params(), Found(), Onchain(), trader, 0, 2, slippageBps);
    Evaluates(Transact(Onchain(), trader, [], FlashTransaction(Pools(), Found(), 0, 2, slippageBps, trader)),
            trader, slippageBps);
  }

  /** The remaining premises, by evaluation. */
  lemma PremisesHold()
    ensures Snapshot(Pools(), Onchain().pools) && AllV2(Pools())
    ensures |Onchain().vaults| == 1 && Onchain().vaults[0].token == Params().baseToken
    ensures ExactFee(Found().inputAmount, Onchain().vaults[0].feeBps) < TWO_64
    ensures Found().inputAmount <= Onchain().vaults[0].reserve
    ensures |Found().hopOutputs| == |Found().route|
    ensures Found().route == Around() && Found().inputAmount == 10
  {}

  lemma Evaluates(e: Effects, trader: Address, slippageBps: u64)
    requires ValidBook(ById(Pools())) && AllV2(Pools()) && FitsAlong(ById(Pools()), Around(), 10)
    requires FlashPays(Pools(), Params(), Found(), Onchain(), e, trader, 0, 2, slippageBps)
    ensures e.Committed? && e.delivered == [Holding(trader, Coin("A", 4))]
    ensures e.ledger.vaults == [Vault("A", 1_000_001, 30)]
  {
    hide ValidBook, FitsAlong, ById, PoolsPaid, AllV2;
    assert ExactFee(10, 30) == 1;
  }
}
