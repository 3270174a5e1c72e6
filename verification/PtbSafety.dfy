/** What every committed transaction guarantees, for every command sequence. */
module PtbSafety {
  import opened Arith
  import opened Chain
  import opened AmmPool
  import opened Flash
  import opened Executor
  import opened Sums
  import opened Ptb

  // --- conservation ---

  function VaultWorth(t: string): Vault -> nat {
    (v: Vault) => if v.token == t then v.reserve else 0
  }

  function PoolWorth(t: string): OnchainPool -> nat {
    (p: OnchainPool) => (if p.tokenA == t then p.reserves.a else 0) + (if p.tokenB == t then p.reserves.b else 0)
  }

  function CoinWorth(t: string): Option<Coin> -> nat {
    (c: Option<Coin>) => if c.Some? && c.value.token == t then c.value.value else 0
  }

  function HoldingWorth(t: string): Holding -> nat {
    (h: Holding) => if h.coin.token == t then h.coin.value else 0
  }

  function LedgerHeld(ledger: Ledger, t: string): nat {
    SumBy(ledger.vaults, VaultWorth(t)) + SumBy(ledger.pools, PoolWorth(t))
  }

  /** All units of a token, wherever they are. */
  function Held(s: Running, t: string): nat {
    LedgerHeld(s.ledger, t) + SumBy(s.coins, CoinWorth(t)) + SumBy(s.delivered, HoldingWorth(t))
  }

  lemma CoinMoves(coins: seq<Option<Coin>>, c: nat, x: Option<Coin>, y: Option<Coin>, t: string)
    requires c < |coins|
    ensures SumBy(coins[c := x], CoinWorth(t)) == SumBy(coins, CoinWorth(t)) - CoinWorth(t)(coins[c]) + CoinWorth(t)(x)
    ensures SumBy(coins[c := x] + [y], CoinWorth(t))
            == SumBy(coins, CoinWorth(t)) - CoinWorth(t)(coins[c]) + CoinWorth(t)(x) + CoinWorth(t)(y)
  {
    SumUpdate(coins, c, x, CoinWorth(t));
    SumAppend(coins[c := x], y, CoinWorth(t));
  }

  lemma BorrowConserves(s: Running, vault: nat, amount: u64, t: string)
    requires StepBorrow(s, vault, amount).Done?
    ensures Held(StepBorrow(s, vault, amount).value, t) == Held(s, t)
  {
    var next := StepBorrow(s, vault, amount).value;
    SumUpdate(s.ledger.vaults, vault, next.ledger.vaults[vault], VaultWorth(t));
    SumAppend(s.coins, next.coins[|s.coins|], CoinWorth(t));
    hide FeeAmount;
  }

  lemma RepayConserves(s: Running, vault: nat, loan: nat, coin: nat, t: string)
    requires StepRepay(s, vault, loan, coin).Done?
    ensures Held(StepRepay(s, vault, loan, coin).value, t) == Held(s, t)
  {
    var next := StepRepay(s, vault, loan, coin).value;
    SumUpdate(s.ledger.vaults, vault, next.ledger.vaults[vault], VaultWorth(t));
    CoinMoves(s.coins, coin, None, next.coins[|s.coins|], t);
  }

  lemma SwapConserves(s: Running, pool: nat, aToB: bool, coin: nat, minOut: u64, t: string)
    requires StepSwap(s, pool, aToB, coin, minOut).Done?
    ensures Held(StepSwap(s, pool, aToB, coin, minOut).value, t) == Held(s, t)
  {
    var next := StepSwap(s, pool, aToB, coin, minOut).value;
    SwapPaysCurve(s.ledger.pools[pool].reserves, aToB, s.coins[coin].value.value, minOut);
    hide Swap;
    SumUpdate(s.ledger.pools, pool, next.ledger.pools[pool], PoolWorth(t));
    CoinMoves(s.coins, coin, None, next.coins[|s.coins|], t);
  }

  lemma DeliveryConserves(s: Running, coin: nat, h: Holding, next: Running, t: string)
    requires s.HasCoin(coin) && s.coins[coin].value == h.coin
    requires next.ledger == s.ledger && next.coins == s.coins[coin := None] && next.delivered == s.delivered + [h]
    ensures Held(next, t) == Held(s, t)
  {
    CoinMoves(s.coins, coin, None, None, t);
    SumAppend(s.delivered, h, HoldingWorth(t));
  }

  lemma SplitConserves(s: Running, coin: nat, amount: u64, t: string)
    requires StepSplit(s, coin, amount).Done?
    ensures Held(StepSplit(s, coin, amount).value, t) == Held(s, t)
  {
    var next := StepSplit(s, coin, amount).value;
    CoinMoves(s.coins, coin, next.coins[coin], next.coins[|s.coins|], t);
  }

  lemma MergeConserves(s: Running, into: nat, from: nat, t: string)
    requires StepMerge(s, into, from).Done?
    ensures Held(StepMerge(s, into, from).value, t) == Held(s, t)
  {
    var next := StepMerge(s, into, from).value;
    SumUpdate(s.coins, from, None, CoinWorth(t));
    SumUpdate(s.coins[from := None], into, next.coins[into], CoinWorth(t));
  }

  /** No command creates or destroys a unit of any token. */
  lemma StepConserves(s: Running, sender: Address, cmd: Command, t: string)
    requires Step(s, sender, cmd).Done?
    ensures Held(Step(s, sender, cmd).value, t) == Held(s, t)
  {
    var next := Step(s, sender, cmd).value;
    match cmd
    case BorrowLoan(vault, amount) => BorrowConserves(s, vault, amount, t);
    case RepayLoan(vault, loan, coin) => RepayConserves(s, vault, loan, coin, t);
    case SwapExactIn(pool, aToB, coin, minOut) => SwapConserves(s, pool, aToB, coin, minOut, t);
    case SplitCoin(coin, amount) => SplitConserves(s, coin, amount, t);
    case MergeCoins(into, from) => MergeConserves(s, into, from, t);
    case SettleArb(session, coin) => DeliveryConserves(s, coin, next.delivered[|s.delivered|], next, t);
    case TransferCoin(coin, recipient) => DeliveryConserves(s, coin, next.delivered[|s.delivered|], next, t);
    case BeginArb(coin, minProfit) =>
    case SettleAndReturn(session, coin) =>
  }

  lemma {:induction false} ExecConserves(s: Running, sender: Address, cmds: seq<Command>, t: string)
    requires Exec(s, sender, cmds).Done?
    ensures Held(Exec(s, sender, cmds).value, t) == Held(s, t)
    decreases |cmds|
  {
    if cmds != [] {
      StepConserves(s, sender, cmds[0], t);
      hide Held, Step;
      ExecConserves(Step(s, sender, cmds[0]).value, sender, cmds[1..], t);
    }
  }

  // --- vaults ---

  /** What a vault is still owed, and what it has charged. */
  function OwedTo(vault: nat): Loan -> nat {
    (l: Loan) => if l.receipt.lender == vault && !l.repaid then l.receipt.amount + l.receipt.fee else 0
  }

  function FeeTo(vault: nat): Loan -> nat {
    (l: Loan) => if l.receipt.lender == vault then l.receipt.fee else 0
  }

  /** A vault's reserve, with its open debts in and its fees out: fixed over the whole transaction. */
  function Principal(s: Running, vault: nat): int
    requires vault < |s.ledger.vaults|
  {
    s.ledger.vaults[vault].reserve + SumBy(s.loans, OwedTo(vault)) - SumBy(s.loans, FeeTo(vault))
  }

  lemma StepKeepsPrincipal(s: Running, sender: Address, cmd: Command, v: nat)
    requires Step(s, sender, cmd).Done? && v < |s.ledger.vaults|
    ensures var next := Step(s, sender, cmd).value;
            && |next.ledger.vaults| == |s.ledger.vaults|
            && next.ledger.vaults[v].token == s.ledger.vaults[v].token
            && next.ledger.vaults[v].feeBps == s.ledger.vaults[v].feeBps
            && Principal(next, v) == Principal(s, v)
  {
    match cmd
    case BorrowLoan(vault, amount) =>
      BorrowKeepsPrincipal(s, vault, amount, v);
      hide StepBorrow, Principal;
    case RepayLoan(vault, loan, coin) =>
      RepayKeepsPrincipal(s, vault, loan, coin, v);
      hide StepRepay, Principal;
    case _ =>
      hide Swap, SumBy, AssertProfit;
  }

  lemma BorrowKeepsPrincipal(s: Running, vault: nat, amount: u64, v: nat)
    requires StepBorrow(s, vault, amount).Done? && v < |s.ledger.vaults|
    ensures var next := StepBorrow(s, vault, amount).value;
            && |next.ledger.vaults| == |s.ledger.vaults|
            && next.ledger.vaults[v].token == s.ledger.vaults[v].token
            && next.ledger.vaults[v].feeBps == s.ledger.vaults[v].feeBps
            && Principal(next, v) == Principal(s, v)
  {
    var next := StepBorrow(s, vault, amount).value;
    SumAppend(s.loans, next.loans[|s.loans|], OwedTo(v));
    SumAppend(s.loans, next.loans[|s.loans|], FeeTo(v));
    hide SumBy, FeeAmount;
  }

  lemma RepayKeepsPrincipal(s: Running, vault: nat, loan: nat, coin: nat, v: nat)
    requires StepRepay(s, vault, loan, coin).Done? && v < |s.ledger.vaults|
    ensures var next := StepRepay(s, vault, loan, coin).value;
            && |next.ledger.vaults| == |s.ledger.vaults|
            && next.ledger.vaults[v].token == s.ledger.vaults[v].token
            && next.ledger.vaults[v].feeBps == s.ledger.vaults[v].feeBps
            && Principal(next, v) == Principal(s, v)
  {
    var next := StepRepay(s, vault, loan, coin).value;
    SumUpdate(s.loans, loan, next.loans[loan], OwedTo(v));
    SumUpdate(s.loans, loan, next.loans[loan], FeeTo(v));
    hide SumBy;
  }

  lemma {:induction false} ExecKeepsPrincipal(s: Running, sender: Address, cmds: seq<Command>, v: nat)
    requires Exec(s, sender, cmds).Done? && v < |s.ledger.vaults|
    ensures var end := Exec(s, sender, cmds).value;
            && |end.ledger.vaults| == |s.ledger.vaults|
            && end.ledger.vaults[v].token == s.ledger.vaults[v].token
            && end.ledger.vaults[v].feeBps == s.ledger.vaults[v].feeBps
            && Principal(end, v) == Principal(s, v)
    decreases |cmds|
  {
    if cmds != [] {
      StepKeepsPrincipal(s, sender, cmds[0], v);
      hide Step, Principal;
      ExecKeepsPrincipal(Step(s, sender, cmds[0]).value, sender, cmds[1..], v);
    }
  }

  // --- receipts ---

  /** Every receipt was issued by an existing vault for its rounded-up fee, and every closed session met
      its target. */
  ghost predicate Sound(s: Running) {
    && (forall i :: 0 <= i < |s.loans| ==>
          var r := s.loans[i].receipt;
          r.lender < |s.ledger.vaults| && r.fee == ExactFee(r.amount, s.ledger.vaults[r.lender].feeBps))
    && (forall i :: 0 <= i < |s.sessions| && s.sessions[i].closing.Some? ==>
          s.sessions[i].closing.value.value >= s.sessions[i].receipt.initialAmount + s.sessions[i].receipt.minProfit)
  }

  lemma StepKeepsSound(s: Running, sender: Address, cmd: Command)
    requires Step(s, sender, cmd).Done? && Sound(s)
    ensures Sound(Step(s, sender, cmd).value)
  {
    match cmd
    case BorrowLoan(vault, amount) => FeeParity(amount, s.ledger.vaults[vault].feeBps);
    hide FeeAmount, ExactFee;
    case _ => hide ExactFee;
  }

  lemma {:induction false} ExecKeepsSound(s: Running, sender: Address, cmds: seq<Command>)
    requires Exec(s, sender, cmds).Done? && Sound(s)
    ensures Sound(Exec(s, sender, cmds).value)
    decreases |cmds|
  {
    if cmds != [] {
      StepKeepsSound(s, sender, cmds[0]);
      hide Step, Sound;
      ExecKeepsSound(Step(s, sender, cmds[0]).value, sender, cmds[1..]);
    }
  }

  predicate RepaysLoan(cmd: Command, loan: nat) {
    cmd.RepayLoan? && cmd.loan == loan
  }

  predicate ClosesSession(cmd: Command, session: nat) {
    (cmd.SettleArb? || cmd.SettleAndReturn?) && cmd.session == session
  }

  function Repayments(cmds: seq<Command>, loan: nat): nat {
    if cmds == [] then 0 else (if RepaysLoan(cmds[0], loan) then 1 else 0) + Repayments(cmds[1..], loan)
  }

  function Closings(cmds: seq<Command>, session: nat): nat {
    if cmds == [] then 0 else (if ClosesSession(cmds[0], session) then 1 else 0) + Closings(cmds[1..], session)
  }

  function RepaidFlag(s: Running, loan: nat): nat {
    if loan < |s.loans| && s.loans[loan].repaid then 1 else 0
  }

  function ClosedFlag(s: Running, session: nat): nat {
    if session < |s.sessions| && s.sessions[session].closing.Some? then 1 else 0
  }

  /** A receipt is discharged by the commands that name it and never comes back. */
  lemma {:induction false} ExecCounts(s: Running, sender: Address, cmds: seq<Command>, i: nat)
    requires Exec(s, sender, cmds).Done?
    ensures var end := Exec(s, sender, cmds).value;
            && RepaidFlag(end, i) == RepaidFlag(s, i) + Repayments(cmds, i)
            && ClosedFlag(end, i) == ClosedFlag(s, i) + Closings(cmds, i)
    decreases |cmds|
  {
    if cmds != [] {
      StepCounts(s, sender, cmds[0], i);
      hide Step, RepaidFlag, ClosedFlag, RepaysLoan, ClosesSession;
      ExecCounts(Step(s, sender, cmds[0]).value, sender, cmds[1..], i);
    }
  }

  lemma StepCounts(s: Running, sender: Address, cmd: Command, i: nat)
    requires Step(s, sender, cmd).Done?
    ensures var next := Step(s, sender, cmd).value;
            && RepaidFlag(next, i) == RepaidFlag(s, i) + (if RepaysLoan(cmd, i) then 1 else 0)
            && ClosedFlag(next, i) == ClosedFlag(s, i) + (if ClosesSession(cmd, i) then 1 else 0)
  {
    hide Swap, Borrow, Repay;
  }

  // --- pools ---

  lemma StepKeepsPools(s: Running, sender: Address, cmd: Command, p: nat)
    requires Step(s, sender, cmd).Done? && p < |s.ledger.pools|
    ensures var next := Step(s, sender, cmd).value;
            && |next.ledger.pools| == |s.ledger.pools|
            && next.ledger.pools[p].reserves.Product() >= s.ledger.pools[p].reserves.Product()
            && (s.ledger.pools[p].reserves.Live() ==> next.ledger.pools[p].reserves.Live())
  {
    if cmd.SwapExactIn? {
      SwapKeepsProduct(s.ledger.pools[cmd.pool].reserves, cmd.aToB, s.coins[cmd.coin].value.value, cmd.minOut);
    }
    hide Swap, Borrow, Repay;
  }

  lemma {:induction false} ExecKeepsPools(s: Running, sender: Address, cmds: seq<Command>, p: nat)
    requires Exec(s, sender, cmds).Done? && p < |s.ledger.pools|
    ensures var end := Exec(s, sender, cmds).value;
            && |end.ledger.pools| == |s.ledger.pools|
            && end.ledger.pools[p].reserves.Product() >= s.ledger.pools[p].reserves.Product()
            && (s.ledger.pools[p].reserves.Live() ==> end.ledger.pools[p].reserves.Live())
    decreases |cmds|
  {
    if cmds != [] {
      StepKeepsPools(s, sender, cmds[0], p);
      var next := Step(s, sender, cmds[0]).value;
      hide Step;
      ExecKeepsPools(next, sender, cmds[1..], p);
    }
  }

  // --- committed transactions ---

  function InputWorth(t: string): Coin -> nat {
    (c: Coin) => if c.token == t then c.value else 0
  }

  lemma {:induction false} OpeningCoins(inputs: seq<Coin>, t: string)
    ensures SumBy(seq(|inputs|, i requires 0 <= i < |inputs| => Some(inputs[i])), CoinWorth(t))
            == SumBy(inputs, InputWorth(t))
  {
    if inputs != [] {
      var coins := seq(|inputs|, i requires 0 <= i < |inputs| => Some(inputs[i]));
      assert coins[1..] == seq(|inputs[1..]|, i requires 0 <= i < |inputs[1..]| => Some(inputs[1..][i]));
      OpeningCoins(inputs[1..], t);
    }
  }

  lemma {:induction false} KeptWorth(coins: seq<Option<Coin>>, sender: Address, t: string)
    ensures SumBy(Kept(coins, sender), HoldingWorth(t)) == SumBy(coins, CoinWorth(t))
  {
    if coins != [] {
      KeptWorth(coins[1..], sender, t);
      var rest := Kept(coins[1..], sender);
      if coins[0].Some? {
        var h := Holding(sender, coins[0].value);
        assert ([h] + rest)[1..] == rest;
      } else {
        assert [] + rest == rest;
      }
    }
  }

  lemma {:induction false} NothingKept(coins: seq<Option<Coin>>, sender: Address)
    requires forall i :: 0 <= i < |coins| ==> coins[i].None?
    ensures Kept(coins, sender) == []
  {
    if coins != [] { NothingKept(coins[1..], sender); }
  }

  /** A committed transaction moves tokens and nothing else. */
  lemma CommitConserves(ledger: Ledger, sender: Address, inputs: seq<Coin>, cmds: seq<Command>, t: string)
    requires Transact(ledger, sender, inputs, cmds).Committed?
    ensures var e := Transact(ledger, sender, inputs, cmds);
            LedgerHeld(e.ledger, t) + SumBy(e.delivered, HoldingWorth(t))
            == LedgerHeld(ledger, t) + SumBy(inputs, InputWorth(t))
  {
    var start := Opening(ledger, inputs);
    var end := Exec(start, sender, cmds).value;
    ExecConserves(start, sender, cmds, t);
    OpeningCoins(inputs, t);
    KeptWorth(end.coins, sender, t);
    SumConcat(end.delivered, Kept(end.coins, sender), HoldingWorth(t));
    hide Exec, LedgerHeld;
  }

  /** A committed transaction leaves each vault its starting reserve plus the rounded-up fees of the
      loans it issued. */
  lemma CommitPaysVaults(ledger: Ledger, sender: Address, inputs: seq<Coin>, cmds: seq<Command>, v: nat)
    requires Transact(ledger, sender, inputs, cmds).Committed? && v < |ledger.vaults|
    ensures var e := Transact(ledger, sender, inputs, cmds);
            var loans := Exec(Opening(ledger, inputs), sender, cmds).value.loans;
            && |e.ledger.vaults| == |ledger.vaults|
            && e.ledger.vaults[v].reserve == ledger.vaults[v].reserve + SumBy(loans, FeeTo(v))
            && (forall i :: 0 <= i < |loans| ==>
                  var r := loans[i].receipt;
                  r.lender < |ledger.vaults| && r.fee == ExactFee(r.amount, ledger.vaults[r.lender].feeBps))
  {
    var start := Opening(ledger, inputs);
    var end := Exec(start, sender, cmds).value;
    ExecKeepsPrincipal(start, sender, cmds, v);
    ExecKeepsSound(start, sender, cmds);
    SumZero(end.loans, OwedTo(v));
    forall i | 0 <= i < |end.loans|
      ensures var r := end.loans[i].receipt;
              r.lender < |ledger.vaults| && r.fee == ExactFee(r.amount, ledger.vaults[r.lender].feeBps)
    {
      ExecKeepsPrincipal(start, sender, cmds, end.loans[i].receipt.lender);
    }
    hide Exec, ExactFee;
  }

  /** A committed transaction discharges every receipt by exactly one of its commands, and closes every
      session at its initial amount plus its profit target, or more. */
  lemma CommitDischargesReceipts(ledger: Ledger, sender: Address, inputs: seq<Coin>, cmds: seq<Command>, i: nat)
    requires Transact(ledger, sender, inputs, cmds).Committed?
    ensures var end := Exec(Opening(ledger, inputs), sender, cmds).value;
            && (i < |end.loans| ==> end.loans[i].repaid && Repayments(cmds, i) == 1)
            && (i < |end.sessions| ==>
                  && Closings(cmds, i) == 1
                  && end.sessions[i].closing.Some?
                  && end.sessions[i].closing.value.value
                     >= end.sessions[i].receipt.initialAmount + end.sessions[i].receipt.minProfit)
  {
    var start := Opening(ledger, inputs);
    ExecCounts(start, sender, cmds, i);
    ExecKeepsSound(start, sender, cmds);
    hide Exec;
  }

  /** A transaction that drops a receipt is rolled back. */
  lemma DroppedReceiptRollsBack(ledger: Ledger, sender: Address, inputs: seq<Coin>, cmds: seq<Command>, i: nat)
    requires Exec(Opening(ledger, inputs), sender, cmds).Done?
    requires var end := Exec(Opening(ledger, inputs), sender, cmds).value;
             (i < |end.loans| && Repayments(cmds, i) == 0) || (i < |end.sessions| && Closings(cmds, i) == 0)
    ensures Transact(ledger, sender, inputs, cmds) == RolledBack
  {
    ExecCounts(Opening(ledger, inputs), sender, cmds, i);
    hide Exec;
  }

  // --- what is left over ---

  /** The command passes the coin in slot `i` through a call; what comes back, if anything, is a result. */
  predicate PassesOn(cmd: Command, i: nat) {
    (cmd.BeginArb? || cmd.SettleArb? || cmd.SettleAndReturn?) && cmd.coin == i
  }

  lemma {:induction false} ExecOwns(s: Running, sender: Address, cmds: seq<Command>, i: nat)
    requires Exec(s, sender, cmds).Done?
    ensures i in Exec(s, sender, cmds).value.owned <==>
              i in s.owned && forall k :: 0 <= k < |cmds| ==> !PassesOn(cmds[k], i)
    decreases |cmds|
  {
    if cmds != [] {
      StepOwns(s, sender, cmds[0], i);
      assert cmds == [cmds[0]] + cmds[1..];
      hide Step, PassesOn;
      ExecOwns(Step(s, sender, cmds[0]).value, sender, cmds[1..], i);
    }
  }

  lemma StepOwns(s: Running, sender: Address, cmd: Command, i: nat)
    requires Step(s, sender, cmd).Done?
    ensures i in Step(s, sender, cmd).value.owned <==> i in s.owned && !PassesOn(cmd, i)
  {
    hide Swap, Borrow, Repay, AssertProfit;
  }

  /** A committed transaction leaves no coin behind but input objects that no session has begun or settled with. */
  lemma CommitLeavesOnlyInputs(ledger: Ledger, sender: Address, inputs: seq<Coin>, cmds: seq<Command>, i: nat)
    requires Transact(ledger, sender, inputs, cmds).Committed?
    requires var end := Exec(Opening(ledger, inputs), sender, cmds).value; i < |end.coins| && end.coins[i].Some?
    ensures i < |inputs| && forall k :: 0 <= k < |cmds| ==> !PassesOn(cmds[k], i)
  {
    ExecOwns(Opening(ledger, inputs), sender, cmds, i);
    hide Exec, PassesOn;
  }

  // --- single commands, outcome by outcome ---

  /** A swap command goes through exactly when its coin is of the side it pays into and the pool completes the
      swap; the floor is met, the coin is replaced by the pool's payment, and nothing else changes. */
  lemma SwapStepOutcome(s: Running, sender: Address, pool: nat, aToB: bool, coin: nat, minOut: u64)
    ensures var r := Step(s, sender, SwapExactIn(pool, aToB, coin, minOut));
            && (r.Done? <==>
                  && pool < |s.ledger.pools| && coin < |s.coins| && s.coins[coin].Some?
                  && s.coins[coin].value.token == (if aToB then s.ledger.pools[pool].tokenA else s.ledger.pools[pool].tokenB)
                  && Swap(s.ledger.pools[pool].reserves, aToB, s.coins[coin].value.value, minOut).Done?)
            && (r.Done? ==>
                  var p := s.ledger.pools[pool];
                  var (reserves, out) := Swap(p.reserves, aToB, s.coins[coin].value.value, minOut).value;
                  && out >= minOut
                  && r.value.coins == s.coins[coin := None] + [Some(Coin(if aToB then p.tokenB else p.tokenA, out))]
                  && r.value.ledger == Ledger(s.ledger.vaults, s.ledger.pools[pool := OnchainPool(p.tokenA, p.tokenB, reserves)])
                  && r.value.loans == s.loans && r.value.sessions == s.sessions && r.value.delivered == s.delivered)
  {
    if Step(s, sender, SwapExactIn(pool, aToB, coin, minOut)).Done? {
      SwapPaysCurve(s.ledger.pools[pool].reserves, aToB, s.coins[coin].value.value, minOut);
    }
    hide Swap;
  }

  /** Splitting needs the amount, merging two coins of one token whose sum fits, transferring only the coin. */
  lemma CoinStepOutcomes(s: Running, sender: Address, x: nat, y: nat, amount: u64, recipient: Address)
    requires x < |s.coins| && s.coins[x].Some? && y < |s.coins| && s.coins[y].Some?
    ensures var c, r := s.coins[x].value, Step(s, sender, SplitCoin(x, amount));
            && (r.Done? <==> amount <= c.value)
            && (r.Done? ==>
                  r.value.coins == s.coins[x := Some(Coin(c.token, c.value - amount))] + [Some(Coin(c.token, amount))])
    ensures var c, d, r := s.coins[x].value, s.coins[y].value, Step(s, sender, MergeCoins(x, y));
            && (r.Done? <==> x != y && c.token == d.token && c.value + d.value < 0x1_0000_0000_0000_0000)
            && (r.Done? ==> r.value.coins == s.coins[y := None][x := Some(Coin(c.token, c.value + d.value))])
    ensures var r := Step(s, sender, TransferCoin(x, recipient));
            && r.Done? && r.value.coins == s.coins[x := None]
            && r.value.delivered == s.delivered + [Holding(recipient, s.coins[x].value)]
  {}

  /** The session was closed with its profit in the token it was begun with. */
  predicate PaidInKind(session: Session) {
    && session.closing.Some? && session.closing.value.token == session.token
    && session.closing.value.value >= session.receipt.initialAmount + session.receipt.minProfit
  }

  /** In a committed transaction that is so exactly if the session was settled with a coin of the begun token. */
  lemma PaidInKindIff(ledger: Ledger, sender: Address, inputs: seq<Coin>, cmds: seq<Command>, i: nat)
    requires Transact(ledger, sender, inputs, cmds).Committed?
    requires i < |Exec(Opening(ledger, inputs), sender, cmds).value.sessions|
    ensures var session := Exec(Opening(ledger, inputs), sender, cmds).value.sessions[i];
            session.closing.Some? && (PaidInKind(session) <==> session.closing.value.token == session.token)
  {
    CommitDischargesReceipts(ledger, sender, inputs, cmds, i);
    hide Exec, Opening;
  }

  /** A settle with another token: a session begun with 100 A is closed by 200 B the sender brought along, and the
      100 A leave without any profit. */
  lemma SettledInAnotherToken(sender: Address)
    ensures var inputs, cmds := [Coin("A", 100), Coin("B", 200)], [BeginArb(0, 10), SettleArb(0, 1), TransferCoin(0, sender)];
            var e := Transact(Ledger([], []), sender, inputs, cmds);
            && e == Committed(Ledger([], []), [Holding(sender, Coin("B", 200)), Holding(sender, Coin("A", 100))])
            && Exec(Opening(Ledger([], []), inputs), sender, cmds).Done?
            && var sessions := Exec(Opening(Ledger([], []), inputs), sender, cmds).value.sessions;
               |sessions| == 1 && !PaidInKind(sessions[0])
  {
    var ledger, a, b := Ledger([], []), Coin("A", 100), Coin("B", 200);
    var begin, settle, transfer := BeginArb(0, 10), SettleArb(0, 1), TransferCoin(0, sender);
    var cmds := [begin, settle, transfer];
    var s0 := Opening(ledger, [a, b]);
    assert s0.coins == [Some(a), Some(b)];
    var s1 := Step(s0, sender, begin).value;
    var s2 := Step(s1, sender, settle).value;
    var s3 := Step(s2, sender, transfer).value;
    assert s3.coins == [None, None];
    assert s3.delivered == [Holding(sender, b), Holding(sender, a)];
    assert s3.sessions == [Session(Begin(100, 10, sender), "A", Some(b))];
    NothingKept(s3.coins, sender);
    hide Step, Opening, Kept;
    assert cmds[1..] == [settle, transfer] && cmds[1..][1..] == [transfer] && [transfer][1..] == [];
    assert Exec(s3, sender, []) == Done(s3);
    assert Exec(s2, sender, [transfer]) == Done(s3);
    assert Exec(s1, sender, [settle, transfer]) == Done(s3);
    assert Exec(s0, sender, cmds) == Done(s3);
    assert "A"[0] != "B"[0];
    assert s3.delivered + [] == s3.delivered;
  }
}
