/** The account store the executor and the pool share. The Merkle trie and
    the RLP encoding behind it are abstracted to a map from address to
    account. */
module StatDb {
  import opened Types

  class StateDB {
    var accounts: map<Address, Account>

    constructor (initial: map<Address, Account>)
      ensures accounts == initial
    {
      accounts := initial;
    }

    /** `Load` yields nil exactly when nothing is stored at `addr`. */
    function Load(addr: Address): (r: Option<Account>)
      reads this
      ensures r.None? <==> addr !in accounts
      ensures r.Some? ==> r.value == accounts[addr]
    {
      if addr in accounts then Some(accounts[addr]) else None
    }

    /** `Store` overwrites the record at `addr` and nothing else. */
    method Store(addr: Address, account: Account)
      modifies this
      ensures accounts == old(accounts)[addr := account]
      ensures Load(addr) == Some(account)
      ensures forall a :: a != addr ==> Load(a) == old(Load(a))
    {
      accounts := accounts[addr := account];
    }
  }
}
