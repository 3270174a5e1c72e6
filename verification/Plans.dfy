/** Transaction plans: the ordered steps as data, and their lowering to commands. */
module Plans {
  import opened Arith
  import opened Cycles
  import opened Ptb

  /** The steps of an arbitrage plan; `lender` is the vault the provider's call coordinates name. */
  datatype PtbStep =
    | FlashBorrow(lender: nat, amount: u64)
    | Begin(minProfit: u64)
    | SwapVia(adapter: string, call: string, poolId: string, minOut: u64)
    | SettleReturn
    | FlashRepay(lender: nat)
    | Settle
    | TransferToSender

  /** `adapter_call`. */
  function AdapterCall(hop: Hop): (string, string) {
    (match hop.dex
     case AmmV2 => "amm_v2_adapter"
     case Cetus => "cetus_adapter"
     case Turbos => "turbos_adapter",
     if hop.aToB then "swap_exact_in_a_to_b" else "swap_exact_in_b_to_a")
  }

  function SwapStep(hop: Hop): PtbStep {
    var (adapter, call) := AdapterCall(hop);
    SwapVia(adapter, call, hop.poolId, 0)
  }

  function SwapSteps(route: Route): (steps: seq<PtbStep>)
    ensures |steps| == |route|
    ensures forall i :: 0 <= i < |route| ==> steps[i] == SwapStep(route[i])
  {
    seq(|route|, i requires 0 <= i < |route| => SwapStep(route[i]))
  }

  /** The step calls the adapter of the hop's venue, in the hop's direction, on the hop's pool, without a floor. */
  predicate CallsAdapter(step: PtbStep, hop: Hop) {
    && step.SwapVia? && step.poolId == hop.poolId && step.minOut == 0
    && (hop.dex == AmmV2 ==> step.adapter == "amm_v2_adapter")
    && (hop.dex == Cetus ==> step.adapter == "cetus_adapter")
    && (hop.dex == Turbos ==> step.adapter == "turbos_adapter")
    && step.call == (if hop.aToB then "swap_exact_in_a_to_b" else "swap_exact_in_b_to_a")
  }

  /** `push_swaps`. */
  method PushSwaps(before: seq<PtbStep>, route: Route) returns (steps: seq<PtbStep>)
    ensures steps == before + SwapSteps(route)
    ensures |steps| == |before| + |route| && steps[..|before|] == before
    ensures forall i :: 0 <= i < |route| ==> CallsAdapter(steps[|before| + i], route[i])
  {
    steps := before;
    for i := 0 to |route|
      invariant steps == before + SwapSteps(route)[..i]
    {
      var (adapter, call) := AdapterCall(route[i]);
      steps := steps + [SwapVia(adapter, call, route[i].poolId, 0)];
    }
  }

  function FlashSteps(lender: nat, route: Route, amount: u64, minProfit: u64): seq<PtbStep> {
    [FlashBorrow(lender, amount), Begin(minProfit)] + SwapSteps(route)
    + [SettleReturn, FlashRepay(lender), TransferToSender]
  }

  /** `flash_arb_plan`. */
  method FlashArbPlan(lender: nat, route: Route, inputAmount: u64, minProfit: u64) returns (steps: seq<PtbStep>)
    ensures steps == FlashSteps(lender, route, inputAmount, minProfit)
    ensures |steps| == |route| + 5
    ensures steps[0] == FlashBorrow(lender, inputAmount) && steps[1] == Begin(minProfit)
    ensures forall i :: 0 <= i < |route| ==> CallsAdapter(steps[i + 2], route[i])
    ensures steps[|route| + 2..] == [SettleReturn, FlashRepay(lender), TransferToSender]
  {
    steps := [FlashBorrow(lender, inputAmount)];
    steps := steps + [Begin(minProfit)];
    steps := PushSwaps(steps, route);
    steps := steps + [SettleReturn];
    steps := steps + [FlashRepay(lender)];
    steps := steps + [TransferToSender];
  }

  function OwnedSteps(route: Route, minProfit: u64): seq<PtbStep> {
    [Begin(minProfit)] + SwapSteps(route) + [Settle]
  }

  /** `owned_arb_plan`. */
  method OwnedArbPlan(route: Route, minProfit: u64) returns (steps: seq<PtbStep>)
    ensures steps == OwnedSteps(route, minProfit)
    ensures |steps| == |route| + 2 && steps[0] == Begin(minProfit) && steps[|route| + 1] == Settle
    ensures forall i :: 0 <= i < |route| ==> CallsAdapter(steps[i + 1], route[i])
  {
    steps := [Begin(minProfit)];
    steps := PushSwaps(steps, route);
    steps := steps + [Settle];
  }

  // --- lowering ---

  /** A hop resolved against the chain: the pool object and the slippage floor that replaces the plan's 0. */
  datatype ResolvedHop = ResolvedHop(pool: nat, minOut: u64)

  /** The builder threads one coin through the plan: every step acts on the coin the previous step left. */
  function Lower(steps: seq<PtbStep>, hops: seq<ResolvedHop>, coin: nat, sender: Address): seq<Command> {
    if steps == [] then []
    else
      match steps[0]
      case FlashBorrow(lender, amount) => [BorrowLoan(lender, amount)] + Lower(steps[1..], hops, coin, sender)
      case Begin(minProfit) => [BeginArb(coin, minProfit)] + Lower(steps[1..], hops, coin, sender)
      case SwapVia(_, call, _, _) =>
        if hops == [] then Lower(steps[1..], hops, coin, sender)
        else [SwapExactIn(hops[0].pool, call == "swap_exact_in_a_to_b", coin, hops[0].minOut)]
             + Lower(steps[1..], hops[1..], coin + 1, sender)
      case SettleReturn => [SettleAndReturn(0, coin)] + Lower(steps[1..], hops, coin, sender)
      case FlashRepay(lender) => [RepayLoan(lender, 0, coin)] + Lower(steps[1..], hops, coin + 1, sender)
      case Settle => [SettleArb(0, coin)] + Lower(steps[1..], hops, coin, sender)
      case TransferToSender => [TransferCoin(coin, sender)] + Lower(steps[1..], hops, coin, sender)
  }

  /** The swap commands of a route, from the coin in slot `coin` on. */
  function SwapCommands(route: Route, hops: seq<ResolvedHop>, coin: nat): seq<Command>
    requires |hops| == |route|
  {
    if route == [] then []
    else [SwapExactIn(hops[0].pool, route[0].aToB, coin, hops[0].minOut)] + SwapCommands(route[1..], hops[1..], coin + 1)
  }

  lemma {:induction false} LowerSwaps(route: Route, tail: seq<PtbStep>, hops: seq<ResolvedHop>, coin: nat, sender: Address)
    requires |hops| == |route|
    ensures Lower(SwapSteps(route) + tail, hops, coin, sender)
            == SwapCommands(route, hops, coin) + Lower(tail, [], coin + |route|, sender)
  {
    if route == [] {
      assert SwapSteps(route) + tail == tail;
    } else {
      var steps := SwapSteps(route) + tail;
      FirstSwapStep(route, tail);
      LowerOneSwap(route[0], steps, hops, coin, sender);
      FirstSwapCommand(route, hops, coin);
      hide *;
      LowerSwaps(route[1..], tail, hops[1..], coin + 1, sender);
    }
  }

  /** Command by command: each swap goes to its resolved pool, in its hop's direction, with its own floor, and takes
      the coin the one before it left. */
  lemma {:induction false} SwapCommandsAre(route: Route, hops: seq<ResolvedHop>, coin: nat)
    requires |hops| == |route|
    ensures |SwapCommands(route, hops, coin)| == |route|
    ensures forall i :: 0 <= i < |route| ==>
              SwapCommands(route, hops, coin)[i] == SwapExactIn(hops[i].pool, route[i].aToB, coin + i, hops[i].minOut)
  {
    if route != [] { SwapCommandsAre(route[1..], hops[1..], coin + 1); }
  }

  lemma FirstSwapCommand(route: Route, hops: seq<ResolvedHop>, coin: nat)
    requires |hops| == |route| && route != []
    ensures SwapCommands(route, hops, coin)
            == [SwapExactIn(hops[0].pool, route[0].aToB, coin, hops[0].minOut)]
               + SwapCommands(route[1..], hops[1..], coin + 1)
  {}

  lemma FirstSwapStep(route: Route, tail: seq<PtbStep>)
    requires route != []
    ensures var steps := SwapSteps(route) + tail;
            steps != [] && steps[0] == SwapStep(route[0]) && steps[1..] == SwapSteps(route[1..]) + tail
  {}

  lemma LowerOneSwap(hop: Hop, steps: seq<PtbStep>, hops: seq<ResolvedHop>, coin: nat, sender: Address)
    requires steps != [] && hops != [] && steps[0] == SwapStep(hop)
    ensures Lower(steps, hops, coin, sender)
            == [SwapExactIn(hops[0].pool, hop.aToB, coin, hops[0].minOut)] + Lower(steps[1..], hops[1..], coin + 1, sender)
  {
    assert "swap_exact_in_b_to_a"[14] != "swap_exact_in_a_to_b"[14];
  }

  function FlashCommands(lender: nat, route: Route, hops: seq<ResolvedHop>, amount: u64, minProfit: u64,
                         sender: Address): seq<Command>
    requires |hops| == |route|
  {
    [BorrowLoan(lender, amount), BeginArb(0, minProfit)] + SwapCommands(route, hops, 0)
    + [SettleAndReturn(0, |route|), RepayLoan(lender, 0, |route|), TransferCoin(|route| + 1, sender)]
  }

  /** The owned transaction; before the plan the builder splits the input off the gas coin in slot 0. */
  function OwnedCommands(route: Route, hops: seq<ResolvedHop>, amount: u64, minProfit: u64): seq<Command>
    requires |hops| == |route|
  {
    [SplitCoin(0, amount), BeginArb(1, minProfit)] + SwapCommands(route, hops, 1) + [SettleArb(0, |route| + 1)]
  }

  lemma LowerFlash(lender: nat, route: Route, hops: seq<ResolvedHop>, amount: u64, minProfit: u64, sender: Address)
    requires |hops| == |route|
    ensures Lower(FlashSteps(lender, route, amount, minProfit), hops, 0, sender)
            == FlashCommands(lender, route, hops, amount, minProfit, sender)
  {
    var tail := [SettleReturn, FlashRepay(lender), TransferToSender];
    var all := FlashSteps(lender, route, amount, minProfit);
    assert all[1..][1..] == SwapSteps(route) + tail;
    LowerSwaps(route, tail, hops, 0, sender);
    var n := |route|;
    assert Lower(tail[1..][1..], [], n + 1, sender) == [TransferCoin(n + 1, sender)] + Lower(tail[1..][1..][1..], [], n + 1, sender);
    assert Lower(tail[1..], [], n, sender) == [RepayLoan(lender, 0, n)] + Lower(tail[1..][1..], [], n + 1, sender);
    assert Lower(tail, [], n, sender)
        == [SettleAndReturn(0, n), RepayLoan(lender, 0, n), TransferCoin(n + 1, sender)];
  }

  lemma LowerOwned(route: Route, hops: seq<ResolvedHop>, amount: u64, minProfit: u64, sender: Address)
    requires |hops| == |route|
    ensures [SplitCoin(0, amount)] + Lower(OwnedSteps(route, minProfit), hops, 1, sender)
            == OwnedCommands(route, hops, amount, minProfit)
  {
    var tail := [Settle];
    assert OwnedSteps(route, minProfit)[1..] == SwapSteps(route) + tail;
    LowerSwaps(route, tail, hops, 1, sender);
    assert Lower(tail, [], |route| + 1, sender) == [SettleArb(0, |route| + 1)] + Lower(tail[1..], [], |route| + 1, sender);
  }
}
