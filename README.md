# cxchain: the transaction pool, the transfer executor and the block maker, in Dafny

This project models the three coupled pieces of the cxchain proof-of-work
ledger node and proves properties of them.

- **Transaction pool** (`txpool/default.go`). A `DefaultSortedTxs` bucket
  holds one address's transactions, sorted by descending gas price with a
  stable sort. `DefaultPool` tracks four things:
  - one list of all buckets (`txs`), re-sorted by the `pendingTxs.Less`
    order after each admission;
  - a chain of buckets per address (`pendings`);
  - a nonce-sorted queue per address for future nonces;
  - the set of seen hashes (`all`).

  `NewTx` classifies each transaction against the sender's committed nonce
  and the tail nonce of its last bucket. It then drops it, queues it, pushes
  it into a bucket or replaces into one. `Pop` returns the head of the first
  non-empty bucket.
- **Transfer executor** (`statemachine/machine.go`, `Execute1`). It charges
  `value + 21000 * gasPrice` to the sender and credits `value` to the
  receiver, in uint64 arithmetic with wrap-around. It returns a receipt with
  status 1, or status 0 with the store untouched.
- **Block maker** (`maker/block_maker.go`).
  - `NewBlock` opens an empty body and a header skeleton.
  - `pack` pops one transaction, executes it, and appends it and its receipt.
  - `Finalize` stamps the time and searches nonces 0, 1, 2, … until
    `validHash` accepts the header hash.
  - `validHash` is a byte-and-mask test for a number of leading zero bits.

Module layout:
- `types.dfy` (`Types`): uint64, addresses, hashes, transactions, receipts,
  accounts.
- `sorting.dfy` (`Sorting`): the stable sort that stands for
  `sort.SliceStable`.
- `statdb.dfy` (`StatDb`): the state store as a map from address to account.
- `machine.dfy` (`StateMachine`).
- `txpool.dfy` (`TxPool`).
- `block_maker.dfy` (`Maker`).

How the model is shaped:
- Code that mutates state becomes classes with `modifies` clauses:
  `SortedTxs`, `Pool`, `StateDB`, `BlockMaker`, and the loops of `Replace`,
  `replacePendingTx`, `Pop`, `validHash`, `Pack` and `Finalize`.
- Each such method is proved against a specification function, and the
  properties are lemmas about those functions.
- Go's `*DefaultSortedTxs` pointers are shared between the bucket list and
  the per-address chains. The pool therefore keeps its buckets in an arena:
  `st.buckets`, indexed by handle. The list and the chains hold handles, so
  a bucket changed through one is changed for the other, as in the source.
- The pool's mutable fields are bundled in one `PoolState` value (field
  `st`).
- The pool's invariant (`TxPool.Pool.Valid`) has six parts:
  - the bucket list holds every bucket exactly once;
  - chains name only existing buckets;
  - every bucket lies in exactly one address's chain (`Owned`);
  - every transaction in a chain's buckets was sent by that chain's
    address (`SentBy`);
  - buckets are price-sorted;
  - queues are nonce-sorted.

  Every operation keeps it.
- `pack` and `Pack` are also stated on values: `Maker.PackStep` and
  `Maker.PackSteps` take the pool state, the account store and the body to
  what one step, or `fuel` steps, leave.

## Model

| member | source | states |
|---|---|---|
| Sorting.SortStable | txpool/default.go:27-32 | the stable sort returns a permutation of its input, of the same length, ordered by non-increasing key |
| Sorting.SortStableIsStable | txpool/default.go:29-31 | for every key value, the elements carrying it appear in the sorted result in their original order (`sort.SliceStable` is stable) |
| Sorting.SortStableOfSorted | txpool/default.go:27-32 | sorting an already sorted sequence changes nothing |
| Sorting.AppendThenSort | txpool/default.go:27-32 | appending one element to a sorted sequence and re-sorting equals inserting that element |
| StatDb.StateDB.constructor | statdb/statdb.go:22-26 | the store starts from a given committed account map |
| StatDb.StateDB.Load | statdb/statdb.go:32-43 | `Load` is nil exactly when no account is stored at the address, and otherwise the stored account |
| StatDb.StateDB.Store | statdb/statdb.go:45-54 | `Store` overwrites the account at one address and leaves every other address's account as it was |
| StateMachine.Fee | statemachine/machine.go:76-82 | the gas charge is `21000 * gasPrice` whenever that fits in uint64 |
| StateMachine.Cost | statemachine/machine.go:82-83 | the total charge is `value + 21000 * gasPrice` whenever that fits in uint64 |
| StateMachine.Transfer | statemachine/machine.go:66-113 | the receipt carries the transaction's hash; status is 1 exactly when gas ≥ 21000, the sender exists and can pay the wrapped cost; on status 0 the store is unchanged; on status 1 the receiver is added if absent, no account other than sender and receiver changes, and no nonce changes |
| StateMachine.Execute1 | statemachine/machine.go:66-113 | the receipt and the store after the call are exactly `Transfer` of the store before it |
| StateMachine.InsufficientGasFails | statemachine/machine.go:76-78 | gas below 21000 gives a status-0 receipt and an untouched store, whatever else holds |
| StateMachine.TransferBetweenTwo | statemachine/machine.go:96-111 | a successful transfer between distinct accounts debits the sender by the cost and credits the receiver (a zero account when absent) by the value |
| StateMachine.TransferConserves | statemachine/machine.go:82-108 | without uint64 overflow, a transfer between distinct accounts conserves total balance except for the gas charge |
| StateMachine.SelfTransferPaysOnlyGas | statemachine/machine.go:96-108 | a self-transfer nets only the gas charge, because the receiver is loaded after the sender's debit was stored |
| StateMachine.CostWraps | statemachine/machine.go:82-83 | when `value + 21000 * gasPrice` reaches 2^64 the charge wraps and the sender pays less than the value sent |
| TxPool.BucketPrice | txpool/default.go:20-25 | a bucket's price is its first transaction's gas price, 0 when empty, and on a sorted bucket no transaction is priced higher |
| TxPool.BucketNonce | txpool/default.go:58-63 | a bucket's nonce is its last transaction's nonce, 0 when empty |
| TxPool.Replaced | txpool/default.go:34-44 | with no transaction of `tx`'s nonce the bucket is unchanged; otherwise the first one is swapped for `tx` (multiset) and the result is price-sorted |
| TxPool.PushPlacement | txpool/default.go:27-32 | pushing onto a sorted bucket places `tx` behind every transaction priced at least as high and ahead of every cheaper one |
| TxPool.PriceOrderOverridesNonceOrder | txpool/default.go:27-32 | nonce 1 at price 1 followed by nonce 2 at price 5 yields the order nonce 2, nonce 1, and the bucket's tail nonce then reads 1 |
| TxPool.PopServesCheapest | txpool/default.go:71-73 | on a list sorted by `pendingTxs.Less` the first non-empty bucket's head is priced no higher than any other non-empty bucket's head |
| TxPool.Classify | txpool/default.go:102-120 | drop exactly when the account is missing or its nonce is at least `tx`'s; otherwise queue exactly when `tx.Nonce > expected + 1` and push exactly when equal, with `+ 1` in uint64 and `expected` the last bucket's nonce or the committed one; never replace without a bucket |
| TxPool.SortedTxs.constructor | txpool/default.go:138 | a new bucket holds exactly `tx` |
| TxPool.SortedTxs.GasPrice | txpool/default.go:20-25 | 0 for an empty bucket, otherwise the first transaction's price, which on a sorted bucket no transaction exceeds |
| TxPool.SortedTxs.Nonce | txpool/default.go:58-63 | 0 for an empty bucket, otherwise the last transaction's nonce |
| TxPool.SortedTxs.Push | txpool/default.go:27-32 | the contents become the stable sort of the old contents plus `tx`: one element longer, the same multiset plus `tx`, price-sorted, with equal-priced transactions in arrival order |
| TxPool.SortedTxs.Replace | txpool/default.go:34-44 | the contents become `Replaced(old contents, tx)` |
| TxPool.SortedTxs.Pop | txpool/default.go:46-56 | an empty bucket yields nil and is unchanged; otherwise the first transaction is returned and removed |
| TxPool.ReplaceTarget | txpool/default.go:125-134 | the bucket replaced into is the first in the chain whose tail nonce reaches `tx`'s, and only when its price does not exceed `tx`'s |
| TxPool.NoReplaceTarget | txpool/default.go:125-134 | nothing is replaced exactly when no bucket reaches `tx`'s nonce or the first that does is priced above `tx` |
| TxPool.ReplacedIn | txpool/default.go:125-134 | the arena after the replacement: the target bucket becomes `Replaced(bucket, tx)`, every other bucket is unchanged, none when there is no target |
| TxPool.ReplacedInKeepsSorted | txpool/default.go:125-134 | replacing keeps every bucket price-sorted |
| TxPool.ReplacedSorted | txpool/default.go:34-44 | a replacement leaves a sorted bucket sorted |
| TxPool.NonceSortAscends | txpool/default.go:161-164 | the queue sort orders by ascending nonce |
| TxPool.ResortKeepsInvariant | txpool/default.go:122 | any permutation of the bucket list keeps the pool invariant |
| TxPool.EnqueueKeepsInvariant | txpool/default.go:157-165 | `addQueueTx` keeps the pool invariant (every queue nonce-sorted) |
| TxPool.PushKeepsInvariant | txpool/default.go:144-146 | pushing into an existing bucket keeps the pool invariant |
| TxPool.OpenKeepsInvariant | txpool/default.go:136-155 | a new bucket under the next handle, appended to the sender's chain and the list, keeps the pool invariant, including that every bucket lies in exactly one chain |
| TxPool.OpenKeepsOwned | txpool/default.go:137-142 | the new bucket lies in the sender's chain and no other, and every older bucket keeps its single owning chain |
| TxPool.OpenKeepsSentBy | txpool/default.go:137-142 | a new bucket `[tx]` on the chain of `tx`'s sender keeps every chain's buckets holding only that address's transactions |
| TxPool.SentByUpdate | txpool/default.go:125-174 | overwriting one bucket keeps every chain's buckets sent by its owner, when the owner sent every transaction of the new bucket |
| TxPool.SentByGains | txpool/default.go:144-146 | a bucket of the sender's chain that gains `tx` and otherwise holds only its old transactions keeps every chain's buckets sent by its owner |
| TxPool.ReplaceKeepsSentBy | txpool/default.go:125-134 | replacing into the sender's chain keeps every chain's buckets sent by its owner |
| TxPool.ReplaceKeepsInvariant | txpool/default.go:125-134 | `replacePendingTx` keeps the pool invariant |
| TxPool.PopKeepsInvariant | txpool/default.go:167-174 | taking the head of a non-empty bucket keeps the pool invariant |
| TxPool.FirstFilled | txpool/default.go:168-169 | the position in the bucket list of the first non-empty bucket; none exactly when every listed bucket is empty |
| TxPool.Head | txpool/default.go:167-174 | the transaction `Pop` hands out: nil exactly when every listed bucket is empty, otherwise the head of the first non-empty one |
| TxPool.Popped | txpool/default.go:167-174 | the pool state after `Pop`: that head taken off its bucket, every other bucket, the list, the chains, the queues and `all` unchanged; no change when nil is handed out |
| TxPool.PoppedRemovesHead | txpool/default.go:167-174 | the multiset of transactions held in the buckets loses exactly the transaction `Pop` hands out, and nothing when it hands out nil |
| TxPool.SortTxs | txpool/default.go:122 | `sort.Sort(pool.txs)` returns a permutation of the bucket list that is ascending by bucket price |
| TxPool.ReplacePendingTx | txpool/default.go:125-134 | the scan yields exactly `ReplacedIn(arena, chain, tx)` |
| TxPool.Pool.constructor | txpool/default.go:87-96 | a new pool is empty in all five fields and satisfies the invariant |
| TxPool.Pool.NewTx | txpool/default.go:102-123 | the route taken is `Classify` of the committed account and the tail nonce; a drop changes nothing; otherwise the hash is recorded, the list is ascending by price, the invariant holds (list, ownership, senders, sort orders), and queue, arena, chains and list change exactly as `Enqueued`, `PushedPending` or `ReplacedPending` prescribes for the route |
| TxPool.Pool.AdmitQueued | txpool/default.go:114-122 | queue route (`Enqueued`): only the sender's queue changes, gaining `tx` in nonce order; the hash is recorded and the list re-sorted |
| TxPool.Pool.AdmitPushed | txpool/default.go:116-122 | push route (`PushedPending`): either a new bucket `[tx]` joins the arena, the sender's chain and the list, or `tx` is pushed into the sender's last bucket; then the hash is recorded and the list re-sorted |
| TxPool.Pool.AdmitReplacing | txpool/default.go:118-122 | replace route (`ReplacedPending`): the arena becomes `ReplacedIn`, chains and queue are unchanged, the hash is recorded and the list re-sorted |
| TxPool.Pool.Admit | txpool/default.go:121-122 | the hash joins `all`; the list becomes a price-ascending permutation; the invariant holds |
| TxPool.Pool.AddQueueTx | txpool/default.go:157-165 | the sender's queue gains `tx` (multiset) and is nonce-ascending; other queues are unchanged |
| TxPool.Pool.PushPendingTx | txpool/default.go:136-155 | a new bucket when the sender has none or its last is priced above `tx`; otherwise `tx` is pushed into the last bucket; the pool invariant holds, so every listed bucket lies in exactly one chain and holds only its owner's transactions |
| TxPool.Pool.OpenBucket | txpool/default.go:137-142 | the arena gains `[tx]` under the next handle, which joins the sender's chain and the list; the list is re-sorted ascending by price |
| TxPool.Pool.Pop | txpool/default.go:167-174 | hands out `Head` of the old state and leaves `Popped` of it: the head of the first non-empty bucket in list order, removed from that bucket alone, emptied buckets staying listed; nil and no change when every bucket is empty |
| Maker.ValidHash | maker/block_maker.go:98-116 | the result is `Verdict`: whether the hash has at least `difficulty` leading zero bits, and a panic exactly when the difficulty exceeds the hash's width and every byte is zero |
| Maker.ZeroBitsByBytes | maker/block_maker.go:99-113 | within the hash's width, validity holds exactly when the first `d / 8` bytes are zero and, if `d % 8 > 0`, byte `d / 8` masked by `0xff << (8 - d % 8)` is zero |
| Maker.LeadingZeroBits | maker/block_maker.go:99-113 | `8k + r` leading zero bits exactly when `k` zero bytes are followed by a byte whose top `r` bits are zero |
| Maker.NonZeroByteFails | maker/block_maker.go:102-106 | a non-zero byte among the first `d / 8` makes the check fail, whatever the hash's width |
| Maker.MaskedByte | maker/block_maker.go:108-113 | a byte masked by its top `r` bits is zero exactly when it has at least `r` leading zero bits |
| Maker.EasierDifficulty | maker/block_maker.go:98-116 | a hash that meets a difficulty meets every smaller one |
| Maker.ZeroDifficultyAcceptsAll | maker/block_maker.go:98-116 | difficulty 0 accepts every hash |
| Maker.EightBitsIsFirstByte | maker/block_maker.go:98-116 | difficulty 8 accepts exactly the hashes whose first byte is zero |
| Maker.FourBitsBoundary | maker/block_maker.go:108-113 | at difficulty 4 a first byte 0x0F passes and 0x10 fails |
| Maker.TooHardNeverPasses | maker/block_maker.go:102-110 | beyond 256 bits no hash passes, and the check panics exactly on the all-zero hash |
| Maker.BlockMaker.constructor | maker/block_maker.go:34-43 | a new maker keeps its collaborators and has no open block |
| Maker.BlockMaker.NewBlock | maker/block_maker.go:45-54 | the body is empty (both lists of length 0); the header's parent hash is the chain head's hash and its coinbase the configured one |
| Maker.BlockMaker.PackOne | maker/block_maker.go:70-78 | pool, store and body end as one `PackStep` leaves them: the pool loses exactly its `Head` (`Popped`), which is executed as `Transfer` and appended with its receipt; with an empty pool nothing changes; transactions and receipts stay index-aligned |
| Maker.BlockMaker.Pack | maker/block_maker.go:56-68 | pool, store and body end exactly as `fuel` successive `pack` steps (`PackSteps`) leave them; the body only grows, by at most one transaction per step, and stays aligned with its receipts |
| Maker.PackStepGrows | maker/block_maker.go:70-78 | one `pack` step appends at most one transaction, together with its receipt, and keeps the body aligned |
| Maker.PackStepsGrows | maker/block_maker.go:56-78 | `fuel` steps only append, at most `fuel` transactions, each with its receipt, keeping the body aligned |
| Maker.PackStepMoves | maker/block_maker.go:70-78 | one `pack` step moves the pool's head into the body: pool plus body, as a multiset, is unchanged |
| Maker.PackStepsMoves | maker/block_maker.go:56-78 | packing moves transactions from the pool into the body: none is lost and none is packed twice |
| Maker.PackStepsIdle | maker/block_maker.go:71-74 | with an empty pool any number of `pack` steps changes nothing |
| Maker.BlockMaker.Finalize | maker/block_maker.go:84-96 | the header is stamped with the given time; its nonce is the least nonce whose header hash meets the difficulty; the body is untouched |

## Left out

- `DefaultPool.SetStatRoot` (txpool/default.go:98-100), `MPTStatDB.SetStatRoot` and `Root` are not modelled. The state store is a map from address to account, so there is no trie root to repoint.
- The Merkle trie and RLP encoding behind the state store are left out for the same reason. A decoding failure, which `Load` reports as nil, is folded into "no account".
- `DefaultPool.NotifyTxEvent` is not modelled: its body is empty.
- `StateMachine.Execute` (statemachine/machine.go:18-64) is not modelled. It is the trie-level twin of `Execute1`, and the block maker does not call it.
- `main.go` is not modelled: it is unrelated to the node.
- `Transaction.From`, `Transaction.Hash` and the header hash are opaque. The first two are the fields of `Types.Crypto`; the header hash is `Maker.BlockMaker.headerHash`. Signature recovery, Keccak-256 and the header encoding are not modelled. The source's `Hash` returns one constant for every transaction; an abstract hash function covers that case.
- The header chain's package is not part of this model. Its current head is a constant of the maker, and a header has only the four fields the maker writes. The remaining header fields stay at their zero values.
- `xtime.Now()` becomes `Finalize`'s `now` parameter.
- Concurrency is not modelled: the channels, the `select` on the deadline and the interrupt, `Interupt`, and the data race between `Pack` and `Finalize`.
- Maker.BlockMaker.Pack: the deadline and the interrupt are replaced by a bound of `fuel` calls to `pack`. The model does not say when packing stops.
- Maker.BlockMaker.Finalize: the caller supplies a ghost nonce that meets the difficulty. Without one, the Go loop never ends, and with a difficulty above 256 it may panic. The search itself is modelled as written: nonces 0, 1, 2, … in uint64. It also requires `NewBlock` to have run: before that, Go's `Finalize` dereferences a nil header (maker/block_maker.go:85) and panics.
- Maker.BlockMaker.PackOne: requires `NewBlock` to have run. Before that, Go's `pack` dereferences a nil body after executing a popped transaction. The precondition also excludes the harmless case of an empty pool.
- TxPool.SortTxs: states only "a permutation, ascending by bucket price". Go's `sort.Sort` is not stable, so the order among equally priced buckets is not specified.
- TxPool.Pool.NewTx: sets `all` in the same step as the re-sorted list. Go sets `all` before `sort.Sort`, which does not read it, so the final state is the same.
- TxPool.SortedTxs: models one bucket in isolation. Inside the pool a bucket is an arena slot that the pool's own methods update.
- Go sets an emptied bucket slice to nil. Here the bucket is the empty sequence, which behaves the same.

## Behaviour a reader may not expect

The model follows the code in each of these cases.

- **Pop order.** A fee market would serve the highest gas price first and
  drop buckets once they are empty. Here `pendingTxs.Less` compares with
  `<`, so `sort.Sort` orders the buckets by ascending price. `Pop`
  therefore serves the cheapest non-empty bucket first
  (`TxPool.PopServesCheapest`). Emptied buckets stay in the list
  (`TxPool.Popped`).
- **Order inside a bucket.** One would expect an address's transactions to
  leave in nonce order. A bucket is ordered by price alone, and its tail
  nonce is the last element's nonce. A later, higher-priced nonce therefore
  moves ahead of an earlier one, and the tail nonce then reports the
  earlier one (`TxPool.PriceOrderOverridesNonceOrder`).
- **Fee replacement.** One would expect a replacement to compare the new
  price with the price of the transaction it replaces. The code compares
  it with the bucket's price, which is the highest price in the bucket. It
  then replaces the transaction with `tx`'s nonce in the first bucket whose
  tail nonce reaches it (`TxPool.ReplaceTarget`).
- **Recording the hash.** The hash joins `all` on every route except a
  drop. That includes a replacement that replaces nothing.
