/** The balance-transfer state transition (`StateMachine.Execute1`). */
module StateMachine {
  import opened Types
  import opened StatDb

  /** The flat gas charge of every transaction. */
  const TX_GAS: int := 21000

  /** `gasUsed * GasPrice`, computed in uint64. */
  function Fee(tx: Transaction): (fee: u64)
    ensures TX_GAS * tx.gasPrice < TWO_TO_THE_64 ==> fee == TX_GAS * tx.gasPrice
  {
    Wrap64(TX_GAS * tx.gasPrice)
  }

  /** `value + gasUsed`, computed in uint64. */
  function Cost(tx: Transaction): (cost: u64)
    ensures NoCostOverflow(tx) ==> cost == tx.value + TX_GAS * tx.gasPrice
  {
    Wrap64(tx.value as int + Fee(tx))
  }

  /** The transaction's charge does not overflow uint64. */
  ghost predicate NoCostOverflow(tx: Transaction) {
    tx.value + TX_GAS * tx.gasPrice < TWO_TO_THE_64
  }

  /** The state store as `Execute1` leaves it, and the receipt it returns. */
  datatype Outcome = Outcome(receipt: Receipt, accounts: map<Address, Account>)

  /** The conditions under which `Execute1` succeeds. */
  ghost predicate CanPay(accounts: map<Address, Account>, tx: Transaction, from: Address) {
    tx.gas >= TX_GAS && from in accounts && accounts[from].amount >= Cost(tx)
  }

  /** `Execute1` as a function of the store before the call. The sender is
      debited and stored first; the receiver is then loaded from the updated
      store, so a self-transfer sees its own debit. */
  function Transfer(accounts: map<Address, Account>, tx: Transaction, crypto: Crypto): (o: Outcome)
    ensures o.receipt.txHash == crypto.txHash(tx)
    ensures o.receipt.status == 0 || o.receipt.status == 1
    ensures o.receipt.status == 1 <==> CanPay(accounts, tx, crypto.sender(tx))
    ensures o.receipt.status == 0 ==> o.accounts == accounts
    ensures o.receipt.status == 1 ==> o.accounts.Keys == accounts.Keys + {tx.to}
    ensures forall a :: a in accounts && a != crypto.sender(tx) && a != tx.to
              ==> a in o.accounts && o.accounts[a] == accounts[a]
    ensures forall a :: a in o.accounts
              ==> o.accounts[a].nonce == (if a in accounts then accounts[a].nonce else 0)
  {
    var from := crypto.sender(tx);
    var failed := Outcome(Receipt(crypto.txHash(tx), 0), accounts);
    if tx.gas < TX_GAS then failed
    else if from !in accounts then failed
    else if accounts[from].amount < Cost(tx) then failed
    else
      var debited := accounts[from := accounts[from].(amount := accounts[from].amount - Cost(tx))];
      var receiver := if tx.to in debited then debited[tx.to] else Account(0, 0);
      var credited := debited[tx.to := receiver.(amount := Wrap64(receiver.amount as int + tx.value))];
      Outcome(Receipt(crypto.txHash(tx), 1), credited)
  }

  /** `Execute1`: loads and stores through the shared state store in the
      order the source does. */
  method Execute1(state: StateDB, tx: Transaction, crypto: Crypto) returns (receipt: Receipt)
    modifies state
    ensures Outcome(receipt, state.accounts) == Transfer(old(state.accounts), tx, crypto)
  {
    var from := crypto.sender(tx);
    receipt := Receipt(crypto.txHash(tx), 0);
    if tx.gas < TX_GAS {
      return;
    }
    var cost := Cost(tx);
    var fromAccount := state.Load(from);
    if fromAccount.None? {
      return;
    }
    if fromAccount.value.amount < cost {
      return;
    }
    state.Store(from, fromAccount.value.(amount := fromAccount.value.amount - cost));
    var loaded := state.Load(tx.to);
    var toAccount := if loaded.Some? then loaded.value else Account(0, 0);
    state.Store(tx.to, toAccount.(amount := Wrap64(toAccount.amount as int + tx.value)));
    receipt := receipt.(status := 1);
  }

  /** Gas below 21000 fails without touching the store, whatever else holds. */
  lemma InsufficientGasFails(accounts: map<Address, Account>, tx: Transaction, crypto: Crypto)
    requires tx.gas < TX_GAS
    ensures Transfer(accounts, tx, crypto) == Outcome(Receipt(crypto.txHash(tx), 0), accounts)
  {
  }

  /** A successful transfer between two distinct accounts moves exactly the
      cost out of the sender and exactly the value into the receiver, which
      starts from a zero account when it did not exist. */
  lemma TransferBetweenTwo(accounts: map<Address, Account>, tx: Transaction, crypto: Crypto)
    requires CanPay(accounts, tx, crypto.sender(tx))
    requires crypto.sender(tx) != tx.to
    ensures var o := Transfer(accounts, tx, crypto);
      var from := crypto.sender(tx);
      var before := if tx.to in accounts then accounts[tx.to] else Account(0, 0);
      && o.receipt.status == 1
      && o.accounts[from] == accounts[from].(amount := accounts[from].amount - Cost(tx))
      && o.accounts[tx.to] == before.(amount := Wrap64(before.amount + tx.value))
  {
  }

  /** With no uint64 overflow, a transfer between two accounts conserves the
      total balance except for the gas charge. */
  lemma TransferConserves(accounts: map<Address, Account>, tx: Transaction, crypto: Crypto)
    requires CanPay(accounts, tx, crypto.sender(tx))
    requires crypto.sender(tx) != tx.to
    requires NoCostOverflow(tx)
    requires tx.to in accounts ==> accounts[tx.to].amount + tx.value < TWO_TO_THE_64
    ensures var o := Transfer(accounts, tx, crypto);
      var from := crypto.sender(tx);
      var before := if tx.to in accounts then accounts[tx.to].amount else 0;
      && o.accounts[from].amount + tx.value + TX_GAS * tx.gasPrice == accounts[from].amount
      && o.accounts[tx.to].amount == before + tx.value
  {
    TransferBetweenTwo(accounts, tx, crypto);
  }

  /** A self-transfer nets only the gas charge, because the receiver is
      loaded after the sender's debit was stored. */
  lemma SelfTransferPaysOnlyGas(accounts: map<Address, Account>, tx: Transaction, crypto: Crypto)
    requires CanPay(accounts, tx, crypto.sender(tx))
    requires crypto.sender(tx) == tx.to
    requires NoCostOverflow(tx)
    ensures var o := Transfer(accounts, tx, crypto);
      o.accounts == accounts[tx.to := accounts[tx.to].(amount := accounts[tx.to].amount - TX_GAS * tx.gasPrice)]
  {
  }

  /** When `value + 21000 * gasPrice` reaches 2^64, the charge wraps around and
      the sender pays less than the value it sends. */
  lemma CostWraps(tx: Transaction)
    requires TX_GAS * tx.gasPrice < TWO_TO_THE_64 <= tx.value + TX_GAS * tx.gasPrice
    ensures Cost(tx) == tx.value + TX_GAS * tx.gasPrice - TWO_TO_THE_64
    ensures Cost(tx) < tx.value
  {
  }
}
