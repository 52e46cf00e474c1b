/** Shared value types of the ledger node: transactions, receipts, accounts,
    and the opaque collaborators (signature recovery, transaction hashing). */
module Types {

  /** Go's uint64. */
  const TWO_TO_THE_64: int := 0x1_0000_0000_0000_0000
  type u64 = x: int | 0 <= x < TWO_TO_THE_64

  type byte = bv8

  /** `types.Address` is a 20-byte array. */
  type Address = a: seq<byte> | |a| == 20 witness seq(20, i => 0 as byte)

  /** `hash.Hash` is a 32-byte digest. */
  type Hash = h: seq<byte> | |h| == 32 witness seq(32, i => 0 as byte)

  /** Go's unsigned 64-bit arithmetic silently wraps around. */
  function Wrap64(x: int): (r: u64)
    ensures 0 <= x < TWO_TO_THE_64 ==> r == x
  {
    x % TWO_TO_THE_64
  }

  /** Go's `x + 1` on a uint64: the largest value wraps to zero. */
  function Inc64(x: u64): (r: u64)
    ensures x < TWO_TO_THE_64 - 1 ==> r == x + 1
  {
    if x == TWO_TO_THE_64 - 1 then 0 else x + 1
  }

  datatype Option<T> = None | Some(value: T)

  /** The ECDSA signature carried by a transaction. */
  datatype Signature = Signature(r: nat, s: nat, v: byte)

  /** `types.Transaction`: the signed payload (`txdata`) plus its signature.
      The sender is not stored: it is recovered from the signature. */
  datatype Transaction = Transaction(
    to: Address,
    nonce: u64,
    value: u64,
    gas: u64,
    gasPrice: u64,
    input: seq<byte>,
    sig: Signature)

  /** `types.Receiption`: the outcome of executing one transaction. */
  datatype Receipt = Receipt(txHash: Hash, status: int)

  /** The account record kept in the state store. */
  datatype Account = Account(nonce: u64, amount: u64)

  /** The deterministic collaborators the core consumes but does not define:
      `Transaction.From` (RLP encoding, Keccak-256 and secp256k1 public-key
      recovery, yielding the zero address when recovery fails) and
      `Transaction.Hash`. */
  datatype Crypto = Crypto(sender: Transaction -> Address, txHash: Transaction -> Hash)
}
