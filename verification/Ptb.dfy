/** Programmable transaction blocks as a machine: commands over live coins and receipts, commit only
    when every receipt is discharged and every coin delivered, roll back otherwise. */
module Ptb {
  import opened Arith
  import opened Chain
  import opened AmmPool
  import opened Flash
  import opened Executor

  type Address = nat

  datatype Coin = Coin(token: string, value: u64)

  datatype OnchainPool = OnchainPool(tokenA: string, tokenB: string, reserves: Reserves)
  {
    function TokenIn(aToB: bool): string { if aToB then tokenA else tokenB }

    function TokenOut(aToB: bool): string { if aToB then tokenB else tokenA }
  }

  datatype Holding = Holding(owner: Address, coin: Coin)

  /** Shared objects; an object's id is its index. */
  datatype Ledger = Ledger(vaults: seq<Vault>, pools: seq<OnchainPool>)

  datatype Loan = Loan(receipt: FlashReceipt, repaid: bool)

  /** A session on record: its receipt, the token it was begun with, and the coin it was settled with. The receipt
      itself names no token. */
  datatype Session = Session(receipt: ArbReceipt, token: string, closing: Option<Coin>)

  /** A running transaction. Coins and receipts are numbered in the order they appear; a consumed coin
      leaves an empty slot, a discharged receipt stays on record. The slots in `owned` are the sender's input
      objects; a coin that has come back from a call is a result like any other. */
  datatype Running = Running(
    ledger: Ledger,
    coins: seq<Option<Coin>>,
    loans: seq<Loan>,
    sessions: seq<Session>,
    delivered: seq<Holding>,
    owned: set<nat>)
  {
    predicate HasCoin(c: nat) { c < |coins| && coins[c].Some? }
  }

  datatype Command =
    | BorrowLoan(vault: nat, amount: u64)
    | RepayLoan(vault: nat, loan: nat, coin: nat)
    | BeginArb(coin: nat, minProfit: u64)
    | SettleArb(session: nat, coin: nat)
    | SettleAndReturn(session: nat, coin: nat)
    | SwapExactIn(pool: nat, aToB: bool, coin: nat, minOut: u64)
    | SplitCoin(coin: nat, amount: u64)
    | MergeCoins(into: nat, from: nat)
    | TransferCoin(coin: nat, recipient: Address)

  // --- the commands ---

  function StepBorrow(s: Running, vault: nat, amount: u64): Outcome<Running> {
    if vault >= |s.ledger.vaults| then Aborted(BadArgument)
    else
      match Borrow(s.ledger.vaults[vault], vault, amount)
      case Aborted(code) => Aborted(code)
      case Done((lent, receipt)) =>
        Done(s.(ledger := s.ledger.(vaults := s.ledger.vaults[vault := lent]),
                coins := s.coins + [Some(Coin(lent.token, amount))],
                loans := s.loans + [Loan(receipt, false)]))
  }

  function StepRepay(s: Running, vault: nat, loan: nat, coin: nat): Outcome<Running> {
    if vault >= |s.ledger.vaults| || loan >= |s.loans| || s.loans[loan].repaid || !s.HasCoin(coin)
       || s.coins[coin].value.token != s.ledger.vaults[vault].token
    then Aborted(BadArgument)
    else
      match Repay(s.ledger.vaults[vault], vault, s.loans[loan].receipt, s.coins[coin].value.value)
      case Aborted(code) => Aborted(code)
      case Done((repaid, change)) =>
        Done(s.(ledger := s.ledger.(vaults := s.ledger.vaults[vault := repaid]),
                coins := s.coins[coin := None] + [Some(Coin(repaid.token, change))],
                loans := s.loans[loan := Loan(s.loans[loan].receipt, true)]))
  }

  function StepBegin(s: Running, sender: Address, coin: nat, minProfit: u64): Outcome<Running> {
    if !s.HasCoin(coin) then Aborted(BadArgument)
    else
      var input := s.coins[coin].value;
      Done(s.(sessions := s.sessions + [Session(Begin(input.value, minProfit, sender), input.token, None)],
                 owned := s.owned - {coin}))
  }

  /** Both settle functions run the same gate; `deliver` tells whether the coin goes to the initiator. */
  function StepSettle(s: Running, session: nat, coin: nat, deliver: bool): Outcome<Running> {
    if session >= |s.sessions| || s.sessions[session].closing.Some? || !s.HasCoin(coin) then Aborted(BadArgument)
    else
      var receipt, output := s.sessions[session].receipt, s.coins[coin].value;
      match AssertProfit(receipt.initialAmount, receipt.minProfit, output.value)
      case Aborted(code) => Aborted(code)
      case Done(_) =>
        var closed := s.(sessions := s.sessions[session := s.sessions[session].(closing := Some(output))],
                         owned := s.owned - {coin});
        Done(if deliver
             then closed.(coins := s.coins[coin := None],
                          delivered := s.delivered + [Holding(receipt.initiator, output)])
             else closed)
  }

  function StepSwap(s: Running, pool: nat, aToB: bool, coin: nat, minOut: u64): Outcome<Running> {
    if pool >= |s.ledger.pools| || !s.HasCoin(coin)
       || s.coins[coin].value.token != s.ledger.pools[pool].TokenIn(aToB)
    then Aborted(BadArgument)
    else
      var p := s.ledger.pools[pool];
      match Swap(p.reserves, aToB, s.coins[coin].value.value, minOut)
      case Aborted(code) => Aborted(code)
      case Done((reserves, amountOut)) =>
        Done(s.(ledger := s.ledger.(pools := s.ledger.pools[pool := p.(reserves := reserves)]),
                coins := s.coins[coin := None] + [Some(Coin(p.TokenOut(aToB), amountOut))]))
  }

  function StepSplit(s: Running, coin: nat, amount: u64): Outcome<Running> {
    if !s.HasCoin(coin) then Aborted(BadArgument)
    else
      var c := s.coins[coin].value;
      if c.value < amount then Aborted(NotEnoughBalance)
      else Done(s.(coins := s.coins[coin := Some(Coin(c.token, c.value - amount))] + [Some(Coin(c.token, amount))]))
  }

  function StepMerge(s: Running, into: nat, from: nat): Outcome<Running> {
    if !s.HasCoin(into) || !s.HasCoin(from) || into == from
       || s.coins[into].value.token != s.coins[from].value.token
    then Aborted(BadArgument)
    else
      var sum := s.coins[into].value.value + s.coins[from].value.value;
      if sum >= TWO_64 then Aborted(Chain.Arithmetic)
      else Done(s.(coins := s.coins[from := None][into := Some(Coin(s.coins[into].value.token, sum))]))
  }

  function StepTransfer(s: Running, coin: nat, recipient: Address): Outcome<Running> {
    if !s.HasCoin(coin) then Aborted(BadArgument)
    else Done(s.(coins := s.coins[coin := None],
                 delivered := s.delivered + [Holding(recipient, s.coins[coin].value)]))
  }

  function Step(s: Running, sender: Address, cmd: Command): Outcome<Running> {
    match cmd
    case BorrowLoan(vault, amount) => StepBorrow(s, vault, amount)
    case RepayLoan(vault, loan, coin) => StepRepay(s, vault, loan, coin)
    case BeginArb(coin, minProfit) => StepBegin(s, sender, coin, minProfit)
    case SettleArb(session, coin) => StepSettle(s, session, coin, true)
    case SettleAndReturn(session, coin) => StepSettle(s, session, coin, false)
    case SwapExactIn(pool, aToB, coin, minOut) => StepSwap(s, pool, aToB, coin, minOut)
    case SplitCoin(coin, amount) => StepSplit(s, coin, amount)
    case MergeCoins(into, from) => StepMerge(s, into, from)
    case TransferCoin(coin, recipient) => StepTransfer(s, coin, recipient)
  }

  function Exec(s: Running, sender: Address, cmds: seq<Command>): Outcome<Running>
    decreases |cmds|
  {
    if cmds == [] then Done(s)
    else
      match Step(s, sender, cmds[0])
      case Aborted(code) => Aborted(code)
      case Done(next) => Exec(next, sender, cmds[1..])
  }

  // --- the transaction ---

  function FirstSlots(n: nat): (slots: set<nat>)
    ensures forall i :: i in slots <==> 0 <= i < n
  {
    if n == 0 then {} else FirstSlots(n - 1) + {n - 1}
  }

  function Opening(ledger: Ledger, inputs: seq<Coin>): Running {
    Running(ledger, seq(|inputs|, i requires 0 <= i < |inputs| => Some(inputs[i])), [], [], [],
            FirstSlots(|inputs|))
  }

  /** Nothing without `drop` is left: no receipt, and no coin but the sender's own input objects. */
  predicate Discharged(s: Running) {
    && (forall i :: 0 <= i < |s.coins| && i !in s.owned ==> s.coins[i].None?)
    && (forall i :: 0 <= i < |s.loans| ==> s.loans[i].repaid)
    && (forall i :: 0 <= i < |s.sessions| ==> s.sessions[i].closing.Some?)
  }

  /** Input objects that were not used up, in whole or in part, stay with the sender. */
  function Kept(coins: seq<Option<Coin>>, sender: Address): seq<Holding> {
    if coins == [] then []
    else (if coins[0].Some? then [Holding(sender, coins[0].value)] else []) + Kept(coins[1..], sender)
  }

  datatype Effects = Committed(ledger: Ledger, delivered: seq<Holding>) | RolledBack

  function Transact(ledger: Ledger, sender: Address, inputs: seq<Coin>, cmds: seq<Command>): Effects {
    match Exec(Opening(ledger, inputs), sender, cmds)
    case Done(end) =>
      if Discharged(end) then Committed(end.ledger, end.delivered + Kept(end.coins, sender)) else RolledBack
    case Aborted(_) => RolledBack
  }
}
